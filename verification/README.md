# DMMR-Orbit: verified model

DMMR-Orbit receives messages on sockets, passes them through a ring from which sessions pick their
own, and sends each session's messages on in batches.  It reads its settings with a generated
scanner and reads them again when a checksum of the file changes.  This project models the parts of
it that compute, and proves what they are for.

| file | models |
|---|---|
| `Crc32.dfy` | the table-driven checksum, against bit-serial polynomial division |
| `WordMemory.dfy`, `StringLength.dfy` | the word-at-a-time memory move and string length |
| `RecvManager.dfy` | the manager of 256 receive slots, as a state machine and as a class |
| `Reception.dfy` | the cells of the FIFO, and what they lead to |
| `SessionPool.dfy` | a session's pool: sorting, sizes, flushing, growth |
| `SessionSelection.dfy` | which nodes a session takes, and what becomes of received addresses |
| `SocketSend.dfy` | what of a batch goes out on the socket, and what is lost |
| `SessionScheduler.dfy`, `SessionDeadlines.dfy` | the pool between its worker and the scheduler's deadline |
| `CircleBuffer.dfy` | the ring between one writer and many readers, as an interleaved step system |
| `CircleBufferWorker.dfy` | the writer: ring construction, FIFO, batch, publishing |
| `Pipeline.dfy` | reception, ring, worker and session together |
| `ScannerTables.dfy`, `ScannerStates.dfy` | the compressed tables, entry by entry, and the automaton behind them |
| `ScannerRules.dfy`, `ScannerMeaning.dfy` | the rules, and the proof that the tables implement them |
| `MaximalMunch.dfy`, `BufferedScanner.dfy` | the token list of a text, and the buffered scanner that produces it |
| `ConfigText.dfy`, `Console.dfy`, `ConfigReload.dfy` | configuration text, its effect, and reloading |
| `Bytes.dfy` | the byte of messages, files and texts |

`dafny verify dfyconfig.toml` checks everything.

## How it is modelled

- Words of the checksum are sequences of 32 bits, low bit first.  `uint8_t`, `uint16_t` and
  `uint32_t` arithmetic of the other parts is written out with its wrap-around.
- A call under a mutex is one step.  The ring is not locked, so there the start and the end of the copy
  of a node into a slot, each of the two stores to the cursor, and a reader's joining and the start and
  end of its look are steps of their own, in any order.  A look during which its slot is being written
  counts as torn.  A reader's advance is one step: it reads the cursor once, and the links it then
  follows never change.
- The session's worker locks its pool only to remove what it has sent.  Everything else is steps of
  its own: the store of a node, the read and the write of the count, each node summed up and counted,
  the sending, the test and the reset.  A deadline is three steps (send, empty, wipe), and these mix
  with the worker's in any way but for the mutex.  The pool is an array and a count.
- The FIFO and the batch hold cells that point to receive slots.  Cells are found as the code finds
  them, except that a NULL pointer counts as free.  A cell put into the FIFO twice, or an array of
  cells moved with some of them queued, breaks the FIFO, and the model says nothing about what follows.
- What a cell leads to is read when it is published; during one pass of the writer that does not change.
- A ring slot and a FIFO cell are stamped with the number of their message; the stamps are there for
  the proofs, to say which message is which and what was torn, and no step of the code depends on them.
- `snd_cb` appends to a sequence.  A message's content is a value that nothing looks into.
- The address fields of a node are the 16 and 28 bytes of a `sockaddr` and a `sockaddr_in6`, laid out as
  on Linux: `node_cmp` compares bytes 4 to 7 of the one or 8 to 23 of the other (`SessionPool.Selects`).
- `yy_ch_buf` is an array that is shifted, doubled and refilled in place; pointers into it are
  indices.  A read returns any number of bytes from 1 to what was asked for, and 0 only at the end.
- The handler of a token is called after `yylex` has returned it instead of just before.
- Some rows cite a header, or the use, of code in another file: `src/parser/console.c`, lines 32-134
  (`handle_token`, `console_setup`, `console_run`), `src/parser/dmmr_parser.c`, lines 13-38
  (`parser_load_config`, `parser_reload_config`), `src/scheduler/dmmr_scheduler.c`, lines 93-109
  (`sched_trigger_snd`), `src/socket/dmmr_socket.c`, lines 27-47 and 91-111 (`get_struct_node_buffer`,
  `on_receive_connection_cb`), and
  `src/include/mtu_config.h`, lines 10-29.
- `atoi` beyond the range of `int` is what it is in glibc: the low bits of `strtol`.

## Where the code does not do what it seems to be for

- The publish loop copies `sizeof(struct node)` bytes from the address of the FIFO cell's pointer
  field (`src/circle_buffer/dmmr_circle_buffer.c`, line 91), so the ring gets the cell and what
  follows it, not the message (`Reception.CopyIgnoresMessage`).  The ring theorems hold for whatever
  is copied; those that speak of messages take the copy that was meant, from where the pointer leads.
- The receive slots are released before the ring's writer has read them, and may be filled again
  (exact condition `Reception.CellLeadsToMessageIff`).
- `get_struct_node_buffer` looks through the pointer of each cell for an `fd` of 0, and the cells are
  allocated with NULL pointers, so the first message dereferences NULL (`Reception.FirstScanMeetsNull`).
  With NULL counted as free, a stream's messages all get the first cell, because nothing sets `fd` in
  their nodes: a second one before the writer's turn puts the cell into the FIFO twice
  (`SecondMessageBreaksStream`).  A datagram's cell is never free again, and after 0x400 of them cells
  are given out again whether they are queued or not (exact condition for both `IntactIff`).
- A stream's nodes are not given an address either (`src/socket/socket_tcp.c`, lines 108-125), so
  only a session whose own is all zero selects them.
- Where a node does get an address it is copied to the start of the field (`src/socket/socket_udp.c`,
  lines 65-72), but compared where a `sockaddr` has it, four or eight bytes further on.  So the
  addresses of IPv4 datagrams never tell two sessions apart, and those of IPv6 only by their second half
  (`SessionSelection.ForeignDatagramIsTaken`; exact conditions `StoredAddressIsNotCompared`,
  `StoredAddress6HalfCompared`).
- Moving the cursor takes two stores, and between them it is on the last slot.  A reader that tests it
  then can pass the writer, and a session that starts then leaves the ring
  (`CircleBuffer.ReaderCanOvertake`, `JoinCanGoAstray`; exact condition `NeverAheadIff`).
- The batch pointer of the ring's writer is set once and not put back after a batch, so each pass
  publishes all earlier items again, and after 0x400 items nothing new is published
  (`CircleBufferWorker.BatchAccumulates`, `FullBatchStalls`; exact condition `PublishedOnceIff`).
- A session looks at its slot before it tests the cursor.  One that has caught up sees an old
  message or none and then moves on (`Pipeline.EagerSessionMissesMessage`; exact condition
  `CircleBuffer.TimelyReaderSeesAll`).
- The test for being behind the cursor has no notion of behind: it holds on every other slot
  (`CircleBuffer.IsBehindMeansElsewhere`).
- The `uint16_t` total of a pool can wrap past the limit (`SessionPool.WrapMissesFlush`; exact
  condition `StaysBelowLimitIff`), and the 32-bit sum of a flush past the end of its batch (exact
  conditions `FlushCountIsBatchIff`, `EveryFlushIsBatchIff`).  Sizes within the MTU profiles are safe, but
  a failed read is passed on with size 0xFFFFFFFF (`FailedReadIff`, `FailedReadBreaksBatch`).
- A deadline between the storing of a node and its counting loses the node; one from the test of the
  size to the removal sends wiped nodes or sends the batch twice, and just before the removal it makes
  the worker move a negative number of nodes (`SessionDeadlines.DeadlineLosesNode`,
  `DeadlineSendsWiped`, `DeadlineSendsTwice`, `DeadlineBreaksRemoval`; exact condition `DeadlinesConserveIff`).
- The callbacks that send a batch pass on its first six nodes, and the pool is emptied of all of them.
  A batch has at least six, so only one of six full messages goes out whole
  (`SocketSend.MtuBatchIsWholeIff`; over a run `RunLosesFromTheSeventh`).
- `copy_buffer` may copy one slot and release another, or copy nothing and release one
  (`RecvManager.CopyMayMissTheReleasedSlot`, `CopyMayReleaseUncopied`; exact condition
  `CopiesWhatItReleases`).
- The string rule accepts escapes, but the console stores them as they stand
  (`Console.UriSurvivesIff`).
- A printed number that is too large for its field is cut to it, so a configuration comes back
  exactly when it is in range (`Console.ConfigRoundTripIff`).
- A file whose checksum is 0, or the last file's, is not reloaded (`ConfigReload.FileWithCrcZero`; all
  such endings of a file in `UnnoticedEndingsIff`), and before the first load has made the
  table all files of four bytes or more look the same (`UngeneratedTableNoticesOnce`).  `yylineno` runs on
  from one load to the next.

## Model

| member | source | states |
|---|---|---|
| Crc32.PolyIsSourceConstant | src/include/crc.h:9 | The polynomial the proofs use, given by its powers of x, is the word 0xEDB88320, low bit first |
| Crc32.StepInjective | src/include/crc.h:12-13 | The bit step of the inner loop loses nothing: different words stay different |
| Crc32.StepsLinear | src/include/crc.h:12-13 | n bit steps are linear over GF(2) |
| Crc32.TableStepIsEightBitSteps | src/include/crc.h:11-14 | For every word and byte, a shift by eight xor the table entry of the low eight bits is eight bit steps of the word xor the byte |
| Crc32.Checksum.GenerateTable | src/include/crc.h:8-16 | Fills the table so that every entry is eight bit steps of its index |
| Crc32.Checksum.Update | src/include/crc.h:21 | One table step is the specified step through whatever the table holds; with the generated table it feeds the eight bits of a byte, low bit first, to the bit-serial division |
| Crc32.Checksum.Buffer | src/include/crc.h:18-23 | The loop computes the checksum through the table as it is, and with the generated table the bit-serial checksum of the whole buffer |
| Crc32.Checksum.FileChecksum | src/include/crc.h:25-40 | However the file is cut into reads of 1 to 1024 bytes, the result is the checksum of the concatenation through the table as it is, the bit-serial one with the generated table; a file that cannot be opened gives 0 |
| Crc32.FeedInjective | src/include/crc.h:18-23 | For a fixed message the map from start word to end word is injective |
| Crc32.FeedIsXorThenSteps | src/include/crc.h:18-23 | Feeding at most 32 bits is one xor followed by as many bit steps |
| Crc32.DivisionIsUnique | src/include/crc.h:9-14 | A bit sequence has one quotient and one remainder by the generator polynomial, those that long division finds (both directions) |
| Crc32.CrcIsPolynomialRemainder | src/include/crc.h:18-23 | The checksum is the complement of the remainder of the message times x^32, its first 32 bits complemented, by the generator (section 8 of RFC 1952) |
| Crc32.CrcOfThree | src/include/crc.h:18-23 | For messages of one length, the checksum of the xor of three is the xor of their checksums |
| Crc32.BurstDetected | src/include/crc.h:18-23 | Two different messages of one length that agree outside a window of at most 32 bits have different checksums |
| Crc32.BurstOf33Missed | src/include/crc.h:18-23 | The bound is sharp: a difference equal to the generator, 33 bits wide, goes unnoticed from every start word |
| Crc32.TableCrcIsCrc | src/include/crc.h:18-23 | With the generated table the loops compute the bit-serial checksum of every message |
| Crc32.ZeroTableCrc | src/include/crc.h:6 | Before the table is generated every message of four bytes or more has the checksum 0xFFFFFFFF |
| Crc32.SuffixIsUnique | src/include/crc.h:18-23 | For every message and every wanted checksum there is exactly one ending of four bytes that gives it |
| WordMemory.Bcpy | src/include/__bcpy.h:4-84 | For every length, alignment, word size of 4 or 8 and overlap in either direction, the destination ends with the original source bytes and every other byte of memory is unchanged |
| WordMemory.CopyWord | src/include/__bcpy.h:35 | A word copy needs both addresses word-aligned and reads the whole word before it writes it |
| WordMemory.HeadUp | src/include/__bcpy.h:20-28 | The head of the forward copy stops at a word boundary of both pointers, or copies everything when there is none in common or less than a word |
| WordMemory.HeadDown | src/include/__bcpy.h:55-64 | The same for the tail the backward copy starts with |
| WordMemory.CopyForward | src/include/__bcpy.h:17-48 | Head, words and tail upwards move the region intact when the destination is below the source |
| WordMemory.CopyBackward | src/include/__bcpy.h:49-83 | Tail, words and head downwards move the region intact when the destination is above the source |
| WordMemory.MoveOnUp | src/include/__bcpy.h:19-47 | Moving the first part and then the rest upwards is moving the whole: nothing is overwritten before it is read |
| WordMemory.MoveOnDown | src/include/__bcpy.h:51-82 | The same downwards, last part first |
| WordMemory.ElementsMoveAsBytes | src/include/__bcpy.h:4-84 | Moving the bytes of a run of equal-sized structs moves the structs, as the session pool needs |
| StringLength.BorrowTestIsExact | src/include/__vlen.h:32-33 | The masked-subtraction test of a word is nonzero exactly when one of its bytes is zero, for 4 and 8 bytes |
| StringLength.TestWord | src/include/__vlen.h:41-43 | The test of the word in memory says whether one of its bytes is zero |
| StringLength.Vlen | src/include/__vlen.h:26-59 | From any alignment the result is the distance to the first NUL at or after the start, whatever precedes the start in its word |
| RecvManager.ScanIsNearest | src/node/node_recv_manager.c:22-32 | The wrapping scan finds the nearest slot of the wanted status in cyclic order, or none when there is none |
| RecvManager.RunRefinesQueue | src/node/node_recv_manager.c:15-57 | From any state that represents a queue, every run of allocations and releases behaves as that queue and represents its result |
| RecvManager.ManagerIsFifo | src/node/node_recv_manager.c:15-57 | From the initial state, every run of get_free_node and get_buzy_node returns what a 256-place FIFO queue returns; they fail exactly on full and on empty |
| RecvManager.KthReleaseIsKthAllocation | src/node/node_recv_manager.c:15-57 | Without recycling, the k-th successful release returns the slot of the k-th successful allocation |
| RecvManager.ReleaseApproaches | src/node/node_recv_manager.c:37-57 | A release that does not return a given busy slot brings the index strictly nearer to it |
| RecvManager.BusySlotIsReleased | src/node/node_recv_manager.c:5-57 | In any run, with allocations and recycling of other slots in between, a busy slot at distance d is returned within d+1 successful releases |
| RecvManager.SlotAccounting | src/node/node_recv_manager.c:5-57 | In any run the allocations of a slot minus its releases and effective recyclings is the change of its status |
| RecvManager.OneReleaseBetweenAllocations | src/node/node_recv_manager.c:5-57 | Between two allocations of one slot there is exactly one release of it, by get_buzy_node or by an effective recicle_node |
| RecvManager.BusyCount | src/node/node_recv_manager.c:59-70 | In any run the number of busy slots is allocations minus releases |
| RecvManager.RecycleFrees | src/node/node_recv_manager.c:5-13 | In every state: recycling a slot other than 0 leaves it free, with its event exactly if it was busy; slot 0, every other slot and both indices stay as they were |
| RecvManager.RecycledIsAllocated | src/node/node_recv_manager.c:5-35 | On a full manager get_free_node fails; after one slot other than 0 is recycled it returns that slot, and after slot 0 is it still fails |
| RecvManager.CopiesWhatItReleases | src/node/node_recv_manager.c:72-87 | In every state and for every *pos, copy_buffer copies the slot it releases exactly when there is a busy slot at or after *pos, and no busy slot lies from next_busy_index up to *pos in cyclic order or none from *pos up to a later next_busy_index |
| RecvManager.CopyFromNextBusy | src/node/node_recv_manager.c:72-87 | Called with *pos equal to next_busy_index and a busy slot at or after it, copy_buffer releases what it copies |
| RecvManager.CopyMayMissTheReleasedSlot | src/node/node_recv_manager.c:76-83 | A state and a position in which it copies one slot and releases another |
| RecvManager.CopyMayReleaseUncopied | src/node/node_recv_manager.c:76-83 | A state and a position in which it copies nothing and releases a slot all the same |
| RecvManager.Manager.Init | src/node/node_recv_manager.c:89-100 | All slots free and both indices 0 |
| RecvManager.Manager.GetFreeNode | src/node/node_recv_manager.c:15-35 | The do-while scan changes the state as the specification does and returns its event |
| RecvManager.Manager.GetBusyNode | src/node/node_recv_manager.c:37-57 | The same for the release |
| RecvManager.Manager.RecycleNode | src/node/node_recv_manager.c:5-13 | Afterwards the slot is free unless it is slot 0, which the guard rejects; every other slot, every node and both indices are as before |
| RecvManager.Manager.CountNode | src/node/node_recv_manager.c:59-70 | The number of busy slots |
| RecvManager.Manager.CopyBuffer | src/node/node_recv_manager.c:72-87 | Copies the first busy slot at or after the position, if any, then releases as get_buzy_node does; the position it leaves |
| Reception.CellLeadsToMessageIff | src/circle_buffer/include/dmmr_circle_buffer.h:9-12 | The FIFO holds cells that point to slots already released: at every point of every run with the FIFO intact, the cell queued for the j-th message, in the FIFO, the batch or published, leads to that message exactly when no more than 256 messages have been received from then on, on a stream none after it |
| Reception.ReceiveResult | src/circle_buffer/include/dmmr_circle_buffer.h:6-12 | A reception queues the cell that the scan for a free one finds, leaves all slots free and each holding its latest message, and keeps the FIFO intact exactly when that cell is not in it and the array of cells is not moved |
| Reception.IntactIff | src/circle_buffer/include/dmmr_circle_buffer.h:6-12 | In every run the FIFO is intact exactly when, at every reception, it was empty (stream) or the cell used again had left it and the array of cells was not moved (datagrams) |
| Reception.DrainsTakeTheFirst | src/circle_buffer/dmmr_circle_buffer.c:80-84 | After any run with the FIFO intact, n drains move its first n cells behind the batch, in order, and change nothing else |
| Reception.PublishesTakeTheFirst | src/circle_buffer/dmmr_circle_buffer.c:86-94 | And n turns of such a writer's publishing loop publish what the first n cells of the batch lead to, in order |
| Reception.SecondMessageBreaksStream | src/circle_buffer/include/dmmr_circle_buffer.h:6-12 | Two messages of a stream before the writer's turn put one cell into the FIFO twice |
| Reception.PublishedIsReceivedIff | src/socket/socket_tcp.c:103-133 | For a writer that publishes each cell once, which is what was meant: in every run the j-th message published is the j-th received exactly when no more than 256 messages, on a stream none after it, had been received from then on by the time it was read |
| Reception.PromptWriterPublishesReceived | src/socket/socket_tcp.c:103-133 | Such a writer, if it is in time with every cell, publishes what was received, in order |
| Reception.CopyIgnoresMessage | src/circle_buffer/dmmr_circle_buffer.c:91 | The copy as it is written takes its bytes from the address of the reference: what it puts in the slot does not depend on the message |
| SessionPool.SortSorts | src/session/session_connection.c:16-29 | The result of the insertion sort is sorted by arrival and a permutation |
| SessionPool.SortIsStable | src/session/session_connection.c:16-29 | Nodes with the same arrival keep their order |
| SessionPool.StableSortIsUnique | src/session/session_connection.c:16-29 | A sorted sequence with the same nodes of each arrival in the same order is the result of the sort, and only that |
| SessionPool.InsertInPlace | src/session/session_connection.c:21-27 | Shifting larger arrivals up and dropping the key in is insertion into the sorted prefix |
| SessionPool.SortInPlace | src/session/session_connection.c:16-29 | The in-place loop sorts the first c nodes as specified and leaves the rest of the array |
| SessionPool.SizeIsExactBelow | src/session/session_connection.c:31-45 | Below a limit of at most 65536 bytes the uint16_t total is the exact number of bytes |
| SessionPool.SessionSizeIs | src/session/session_connection.c:31-45 | For every pool: the 16-bit total of the shortest prefix for which it reaches the limit, or of everything if none does |
| SessionPool.FlushCountIs | src/session/session_connection.c:53-58 | For every pool: a flush takes the shortest prefix whose 32-bit total exceeds the limit, or everything |
| SessionPool.FlushCountIsBatchIff | src/session/session_connection.c:53-58 | For every pool, what a flush takes is the shortest prefix whose bytes exceed the limit, or everything if none does, exactly when the 32-bit sum of that prefix exceeds the limit too or the prefix is everything |
| SessionPool.EveryFlushIsBatchIff | src/session/session_connection.c:53-58 | That holds for all pools of messages of at most max bytes exactly when limit + max is below 2^32 |
| SessionPool.FailedReadBreaksBatch | src/socket/socket_tcp.c:112-113 | A failed read is stored as a size of 0xFFFFFFFF and passed on: a run with one in which a flush takes more than the shortest prefix |
| SessionPool.FailedReadIff | src/socket/socket_tcp.c:112-113 | A node whose read failed leaves a pool below the limit below it exactly when the pool has no bytes; otherwise the flush is missed |
| SessionPool.FlushSplitsPool | src/session/session_connection.c:51-73 | One flush of an arbitrary pool: a nonempty prefix goes out, the shortest over the limit exactly when the 32-bit sum shows it; the remainder is the stable sort of the rest, and together they are the same nodes |
| SessionPool.FlushWithoutCallback | src/session/session_connection.c:59-72 | Without a callback nothing is sent, and the same prefix leaves the pool: the stable sort of the rest remains |
| SessionPool.StepConserves | src/session/session_connection.c:47-75 | One processed node keeps the conservation invariant, and a flush takes the whole pool |
| SessionPool.RunConserves | src/session/session_connection.c:47-98 | In every run of the worker alone from an empty pool, the batches sent followed by the pool are the accepted nodes (`SessionSelection.AcceptedAreItsOwn`) in order, and the pool stays below the byte limit |
| SessionPool.PoolCountBelowLimit | src/session/session_connection.c:47-98 | With nonempty messages the pool never holds as many nodes as the limit has bytes |
| SessionPool.WrapMissesFlush | src/session/session_connection.c:34-41 | When limit - 1 + max exceeds 65535, a run whose pool reaches the limit and is not flushed |
| SessionPool.StaysBelowLimitIff | src/session/session_connection.c:31-75 | The pool stays below the limit in every run of messages of at most max bytes exactly when limit - 1 + max is at most 65535 |
| SessionPool.MtuProfilesConserve | src/session/session_connection.c:51-52 | The limits of the MTU profiles meet that condition, so every run of messages that fit the buffer, with no failed read among them, conserves |
| SessionPool.MoveToFront | src/session/session_connection.c:65 | The move after a flush shifts the remaining nodes to the front of the pool |
| SessionPool.Session.GetSessionSize | src/session/session_connection.c:31-45 | The pointer loop returns the specified 16-bit total |
| SessionPool.Session.CountForFlush | src/session/session_connection.c:53-58 | The do-while loop returns the specified count |
| SessionPool.Session.Reserve | src/session/session_connection.c:83-92 | Doubles the pool when it is full and keeps its contents; without memory the size is doubled all the same, the pool is lost and the worker ends |
| SessionPool.Session.FlushPool | src/session/session_connection.c:59-72 | Sends the batch if a callback is set, and leaves the specified pool |
| SessionPool.Session.ProcessNode | src/session/session_connection.c:47-75 | The new pool and output are those of the specification for any pool and node, and nothing changes unless fd, port, family and the compared bytes of the address are those of the session's node |
| SessionPool.Session.WorkerTurn | src/session/session_connection.c:82-93 | Growing and processing together: room is made before the node is stored; when the pool is lost nothing more is sent |
| SessionPool.Session.constructor | src/session/session_connection.c:112-116 | An empty pool with room for 0x400 nodes |
| SessionSelection.AcceptedAreItsOwn | src/include/__node_cmp.h:9-35 | Of any nodes seen, a session takes those with its node's fd, port and family and the same sin_addr bytes for AF_INET or sin6_addr bytes for AF_INET6, each as often as it was seen, and no others |
| SessionSelection.SessionsThatShareANode | src/include/__node_cmp.h:9-35 | No node reaches two sessions that differ in any of these |
| SessionSelection.NoOwnerTakesNothing | src/include/__node_cmp.h:10-11 | A session without a node takes none |
| SessionSelection.SessionHasItsOwn | src/session/session_connection.c:47-98 | So in every run of the worker alone, what has been sent and what is in the pool hold of each node of the session as many as were seen, and no other node |
| SessionSelection.ProcessTakesItsOwn | src/session/session_connection.c:47-75 | One processed node, on top of any pool, is kept or sent exactly if it is the session's, and nothing is lost or added besides |
| SessionSelection.StoredAddressIsNotCompared | src/socket/socket_udp.c:65-68 | IPv4 addresses as the receivers store them do not decide what a session takes: what was in the field behind them before does |
| SessionSelection.StoredAddress6HalfCompared | src/socket/socket_udp.c:69-72 | Of IPv6 addresses as stored, the second half decides, and eight bytes behind the address |
| SessionSelection.ForeignDatagramIsTaken | src/socket/socket_udp.c:65-68 | The session of 10.0.0.1 takes a datagram of 10.0.0.2 that came to its socket from its port |
| SocketSend.OnTheWire | src/socket/socket_tcp.c:79-88 | What goes out is the start of the batch, six nodes or all there are |
| SocketSend.SendToClient | src/socket/socket_tcp.c:75-88 | The do-while loop fills the vector with value and size of the first nodes of the batch, in order, and leaves the rest of it alone; a call without nodes fills nothing |
| SocketSend.RunLosesFromTheSeventh | src/socket/socket_tcp.c:79-88 | In every run of the worker alone, the accepted nodes are the first six of each batch, which went out, the others of it, which are lost, and those in the pool |
| SocketSend.WholeOnTheWireIff | src/socket/socket_tcp.c:79-88 | A batch of at least six times the largest size has six nodes or more, and goes out whole exactly when it is six full ones |
| SocketSend.MtuBatchIsWholeIff | src/socket/socket_udp.c:114-128 | So in every run of the worker alone with an MTU profile, a batch loses nodes on the wire exactly when it is anything but six full messages |
| SessionScheduler.AloneIsProcess | src/session/session_connection.c:47-75 | Left alone from any pool, the worker comes by steps of its own (storing, both halves of the increment, summing and counting node by node, sending, testing, removing) to what process_session_node is specified to leave |
| SessionScheduler.RunAlone | src/session/session_connection.c:47-98 | For every list of nodes there is an undisturbed run in which the worker takes them one after the other; it sends and keeps what process_session_node does node by node |
| SessionScheduler.RemovalWaits | src/session/session_connection.c:63-72 | The removal waits as long as a deadline holds the mutex, and goes on after it |
| SessionScheduler.WorkerIgnoresDeadline | src/session/session_connection.c:47-62 | No other step of the worker depends on whether a deadline is under way |
| SessionScheduler.RemoveMoves | src/session/session_connection.c:65-70 | A removal leaves what moving the remaining nodes to the front leaves, these sorted and everything behind them as it was |
| SessionScheduler.StepKeepsInv | src/session/session_connection.c:47-75 | Every step of worker and of a deadline, in any mixture, keeps the bounds on the pool, the two sums and the batch |
| SessionScheduler.UndisturbedConserves | src/scheduler/include/dmmr_scheduler.h:15 | In every run of the finest steps: what has been sent and what is still to be are the accepted nodes, each once and in order, as long as no deadline begins between the storing of a node and its counting or from the test of the size to the removal, and the worker stores no node and finds no limit reached during one |
| SessionDeadlines.ActsAreRuns | src/scheduler/include/dmmr_scheduler.h:15 | Runs in which a deadline is undivided are runs of the finest steps |
| SessionDeadlines.DeadlinesConserveIff | src/scheduler/include/dmmr_scheduler.h:15 | In every run in which the worker rests during deadlines, for a session whose address is not all zero: what has been sent and what is still to be are the accepted nodes, each once and in order, exactly when no deadline struck between the storing of a node and its counting, or from the test of the size to the end of the removal |
| SessionDeadlines.SparedIsUndisturbed | src/scheduler/include/dmmr_scheduler.h:15 | Runs whose undivided deadlines strike elsewhere are undisturbed runs of the finest steps |
| SessionDeadlines.ExpandAtMost | src/scheduler/include/dmmr_scheduler.h:15 | Their messages are of at most a given size exactly when those of the finest steps are |
| SessionScheduler.IdlePoolIsBelowLimit | src/scheduler/include/dmmr_scheduler.h:15 | Between nodes the pool is below the limit in every run of the finest steps, whatever the deadlines did |
| SessionDeadlines.DeadlineLosesNode | src/session/session_connection.c:49-50 | A deadline between the store and the increment: the node is lost and a wiped one is counted |
| SessionDeadlines.DeadlineSendsWiped | src/session/session_connection.c:52-61 | A deadline between the test of the size and the sending: a wiped node is sent |
| SessionDeadlines.DeadlineSendsTwice | src/session/session_connection.c:61-63 | A deadline after the sending: the node is sent twice and the branch that resets the pool count is taken |
| SessionDeadlines.DeadlineBreaksRemoval | src/session/session_connection.c:63-65 | A deadline between the test of the count and the lock: a negative number of nodes is moved |
| SessionDeadlines.SlowDeadlineConserves | src/scheduler/include/dmmr_scheduler.h:15 | The condition for the finest steps is not necessary: a run in which a deadline begins at such a point, the worker goes on before it empties the pool, and nothing is lost or repeated |
| CircleBuffer.PosLater | src/circle_buffer/dmmr_circle_buffer.c:49-55 | Positions come round after size - 1 messages and not before: the last slot is never visited |
| CircleBuffer.CopyKeepsHolds | src/circle_buffer/dmmr_circle_buffer.c:86-94 | Writing message number w over the slot of its position keeps the ring holding, at each position, its latest message |
| CircleBuffer.IsBehindMeansElsewhere | src/circle_buffer/dmmr_circle_buffer.c:30-42 | The address test only says that the reader is on another slot than the writer |
| CircleBuffer.StepKeepsInv | src/circle_buffer/dmmr_circle_buffer.c:86-108 | Every step keeps the protocol invariant: start and end of the copy into a slot, the two stores to the cursor, a session's start, start and end of its look at a slot, and its advance, in any order |
| CircleBuffer.NeverAheadIff | src/circle_buffer/dmmr_circle_buffer.c:49-55 | Under every interleaving a reader is at no time ahead of the writer exactly when it never tests the cursor, level with the writer, between the writer's two stores to it |
| CircleBuffer.ReaderCanOvertake | src/circle_buffer/dmmr_circle_buffer.c:51-53 | For a ring of any size, a run in which a reader gets ahead in that gap |
| CircleBuffer.JoinCanGoAstray | src/circle_buffer/dmmr_circle_buffer.c:51-53 | For a ring of any size, a run in which a session starts in that gap on the last slot, sees nothing and leaves the ring |
| CircleBuffer.WholeSightIsRight | src/session/session_connection.c:48-49 | What a look takes from a slot is what the ring held when it began, torn exactly if a message for that slot was being written at any time of the look |
| CircleBuffer.LookShowsItsMessageIff | src/session/session_connection.c:48-49 | A look of a reader shows the message of its number in one piece exactly when that message had been written before it and the one size - 1 later was not begun by its end; one that started on the last slot sees nothing |
| CircleBuffer.TimelyReaderSeesAll | src/session/session_connection.c:82-98 | A reader sees the messages from its start on, each in one piece, without loss, repeat or change of order, exactly when each was written before its look began, the one size - 1 later was not begun when it ended, and it did not look from the last slot |
| CircleBuffer.ReaderCatchesUp | src/session/session_connection.c:82-98 | After any run: a reader less than a turn behind a resting writer gets the messages up to it, in order and in one piece, by its own looks and advances alone |
| CircleBufferWorker.PublishKeepsLast | src/circle_buffer/dmmr_circle_buffer.c:86-94 | After publishing m items the ring holds the last min(m, size - 1) of them at consecutive positions |
| CircleBufferWorker.CleanPassIff | src/circle_buffer/dmmr_circle_buffer.c:80-94 | A pass over q > 0 queued items removes the first min(q, 0x400) and has exactly those in the batch it publishes if and only if it starts with an empty batch |
| CircleBufferWorker.FullBatchStalls | src/circle_buffer/dmmr_circle_buffer.c:80-94 | A pass that starts with 0x400 items in the batch drains nothing and keeps the batch it publishes again; with room in the batch it drains something |
| CircleBufferWorker.BatchAccumulates | src/circle_buffer/dmmr_circle_buffer.c:57-95 | Over any run of passes from the start, the batch followed by the FIFO is everything that arrived, in order; one publishing pass publishes the batch, and from the second on more is published than the batch holds |
| CircleBufferWorker.PublishedOnceIff | src/circle_buffer/dmmr_circle_buffer.c:57-95 | Over any run, each item taken is published once and in order exactly when nothing arrives after the first arrivals, and these fit in one batch if the worker turns again |
| CircleBufferWorker.OneBatchPublishesArrived | src/circle_buffer/dmmr_circle_buffer.c:57-95 | Then what comes out on the ring is what the items that arrived lead to, as far as they were taken, if nothing changes behind them from the first arrival on |
| CircleBufferWorker.Ring.InsertTail | src/circle_buffer/dmmr_circle_buffer.c:123 | Appends a slot to the circular list, keeping it linked in address order |
| CircleBufferWorker.Ring.Start | src/circle_buffer/dmmr_circle_buffer.c:110-130 | Builds the list in address order with the cursor on the first slot |
| CircleBufferWorker.Ring.Forward | src/circle_buffer/dmmr_circle_buffer.c:49-55 | Moves the cursor to the next of the positions 0 to size - 2 |
| CircleBufferWorker.Ring.Iterate | src/circle_buffer/dmmr_circle_buffer.c:101-108 | A reader's next slot agrees with the cursor's, for every visited slot |
| CircleBufferWorker.Ring.Drain | src/circle_buffer/dmmr_circle_buffer.c:80-84 | Moves items from the FIFO to the batch until one is empty or the other full |
| CircleBufferWorker.Ring.PublishBatch | src/circle_buffer/dmmr_circle_buffer.c:86-94 | Writes what each item of the batch leads to at that time to consecutive positions and advances the cursor past them |
| CircleBufferWorker.Ring.WorkerPass | src/circle_buffer/dmmr_circle_buffer.c:80-94 | One pass changes ring, cursor, FIFO and batch as specified, for whatever the copy reads |
| Pipeline.BatchExtendsLog | src/circle_buffer/dmmr_circle_buffer.c:86-94 | Publishing items through the protocol's steps, after any run, appends them to the log, leaves the readers alone, and leaves slots and cursor as the publish loop does |
| Pipeline.PassesAreSteps | src/circle_buffer/dmmr_circle_buffer.c:57-97 | A whole run of the worker's passes is a run of the protocol's writer: same log, same slots, same cursor |
| Pipeline.LogIsPublished | src/circle_buffer/dmmr_circle_buffer.c:57-97 | With readers in between, the log is at every point a prefix of what the passes publish |
| Pipeline.TimelySessionConserves | src/session/session_connection.c:77-98 | For a timely reader in any interleaved run of the ring and any run of its session with deadlines, down to the finest steps, in which none interferes: what is sent and what is still to be are the selected messages from the reader's start on, in order, each once |
| Pipeline.SessionCanFollow | src/session/session_connection.c:77-98 | Such a run of the session exists for whatever its reader saw in one piece |
| Pipeline.ArrivalsToOutput | src/session/session_connection.c:77-98 | The same from the arrivals in the FIFO, through the worker's passes, to the session's output |
| Pipeline.FirstBatchPublishesReceived | src/circle_buffer/dmmr_circle_buffer.c:57-97 | The worker as it is written publishes what was received if that is its first batch and at most 256 datagrams or one message of a stream, read from where the cells then lead |
| Pipeline.FirstBatchToOutput | src/session/session_connection.c:77-98 | And so the session's output is what it selects of what was received |
| Pipeline.ReceivedToOutput | src/session/session_connection.c:77-98 | With the batch put back after each pass, as was meant: the same for any number of messages, when the writer reads each cell in time |
| Pipeline.EagerSessionMissesMessage | src/session/session_connection.c:93-96 | A session that looks before the writer has written loses that message: a run of seven steps |
| ScannerTables.FallbackDescends | src/parser/scanner.c:815-832 | Every fallback through yy_def leads to a lower rank and at last to the jam state, whose row has an entry for every class |
| ScannerStates.TrieStep | src/parser/scanner.c:386-548 | Each state inside a keyword is entered by one table entry, from an earlier state, on the class of one letter |
| ScannerStates.WalkIsNext | src/parser/scanner.c:386-548 | For every state and class of text the walk computes one flat transition function |
| ScannerStates.EndMark | src/parser/scanner.c:386-548 | From every state the end-of-buffer class leads to the end-of-buffer state, which jams on whatever follows |
| ScannerStates.FinalStates | src/parser/scanner.c:834 | Base 188, where the match loop stops, marks exactly the states with nowhere to go |
| ScannerRules.EarliestRule | src/parser/scanner.l:24-71 | The first rule of the rules section that matches the whole text, 0 if none does |
| ScannerRules.KeywordPath | src/parser/scanner.l:24-33 | The path to the accepting state of each keyword spells the keyword |
| ScannerMeaning.StateMeans | src/parser/scanner.l:16-71 | After any bytes the state reached has its meaning in terms of the rules; the jam state means that no continuation matches |
| ScannerMeaning.AcceptIsEarliestRule | src/parser/scanner.l:16-71 | The tables implement the rules: for every nonempty text the accepted rule is the earliest rule that matches it, 0 if none does |
| ScannerMeaning.JamIsDead | src/parser/scanner.c:834 | Once the automaton jams, no continuation of the text matches any rule |
| MaximalMunch.LongestIsKnown | src/parser/scanner.c:834-841 | At a jam or the end of the text, the best match so far is the longest of the whole text |
| MaximalMunch.LexLosesNothing | src/parser/scanner.l:16-71 | The lexemes put together are the text |
| MaximalMunch.LexIsTheMaximalMunch | src/parser/scanner.l:16-71 | The token list is, and is the only, cut of the text into nonempty lexemes, each the longest match under the earliest of rules 1 to 19; the default rule never fires |
| MaximalMunch.KeywordIsWholeIdentifier | src/parser/scanner.l:24-58 | An identifier is a keyword's token exactly when it is the whole keyword |
| MaximalMunch.FirstToken | src/parser/scanner.l:16-71 | A matching text that the next byte cannot carry on is the first token of whatever starts with it |
| MaximalMunch.EveryLineIsCounted | src/parser/scanner.c:551-554 | Counting only in the rules marked in yy_rule_can_match_eol counts every newline of the text |
| MaximalMunch.NewlinesAreOccurrences | src/parser/scanner.c:845-853 | What is counted of a text is how often it holds a newline |
| MaximalMunch.CanMatchNewlineIff | src/parser/scanner.c:551-554 | The marked rules are exactly the rules with a text that holds a newline |
| MaximalMunch.CodeTellsText | src/parser/include/l_tokens.h:4-10 | For every matched text but blanks and newlines, the returned code is 100 exactly for identifiers, keywords among them, 101 for numbers, 102, 103 and 104 for the three marks, 105 for strings, and -1 for what is left |
| MaximalMunch.SkippedIsGap | src/parser/scanner.l:65-68 | A match is dropped exactly when it is a run of blanks or a single newline |
| MaximalMunch.VisibleAreTheOthers | src/parser/scanner.l:55-71 | Of every text, what the caller sees are its tokens without the runs of blanks and the newlines: each other token at its place among the others, and no more |
| MaximalMunch.LoneTextIsSeen | src/parser/scanner.l:38-58 | An identifier, a comma, semicolon or dash, or a byte of no other rule, that ends there is the first token seen, with its own rule, and then come the tokens of the rest |
| MaximalMunch.OpenQuoteIsSeen | src/parser/scanner.l:60-71 | A quote that no string starts with is seen as an unmatched byte |
| BufferedScanner.Transition | src/parser/scanner.c:826-831 | The inner loop shared by the three matchers computes the walk |
| BufferedScanner.JamIsRecorded | src/parser/scanner.c:820-841 | After a jam the recorded state and position are those of the longest match, never left over from an earlier token |
| BufferedScanner.Scanner.constructor | src/parser/scanner.c:1549-1573 | A new buffer holds two end marks and the whole file is still to be scanned |
| BufferedScanner.Scanner.Match | src/parser/scanner.c:816-834 | The match loop stops with the longest match decided, or over a NUL in the end-of-buffer state |
| BufferedScanner.Scanner.GetPreviousState | src/parser/scanner.c:1268-1293 | Walks the buffered text of the token again, with NUL as class 1, and restores the record |
| BufferedScanner.Scanner.TryNulTrans | src/parser/scanner.c:1300-1321 | One more step, over a NUL that belongs to the text; 0 exactly when it jams |
| BufferedScanner.Scanner.ShiftDown | src/parser/scanner.c:1163-1167 | The unfinished token moves to the start of the buffer |
| BufferedScanner.Scanner.Grow | src/parser/scanner.c:1178-1215 | Doubling makes room for at least one byte after the text kept, which is kept |
| BufferedScanner.Scanner.Input | src/parser/scanner.c:1221-1222 | Some of the file, at least one byte unless it has ended, is appended |
| BufferedScanner.Scanner.GetNextBuffer | src/parser/scanner.c:1130-1264 | The remaining text, buffered and unread together, is unchanged; end of file exactly when nothing is left of it |
| BufferedScanner.Scanner.EndOfBuffer | src/parser/scanner.c:993-1113 | The end-of-buffer action resumes the match one byte or one read further, decides it, or ends at the end of the text |
| BufferedScanner.Scanner.FindAction | src/parser/scanner.c:836-841 | Finds the rule of the longest match, backing up if need be |
| BufferedScanner.Scanner.BeforeAction | src/parser/scanner.c:371-376 | yytext is the token, terminated by a NUL, and the byte set aside is kept |
| BufferedScanner.Scanner.CountLines | src/parser/scanner.c:845-853 | Adds the newlines of yytext under the rules that can match one |
| BufferedScanner.Scanner.ScanToken | src/parser/scanner.c:801-1121 | However the input is cut into nonempty reads and the buffer is shifted and doubled, the token is the longest match of the whole remaining text under its earliest rule, yytext is that text, what remains is the rest, and yylineno grows by its newlines |
| BufferedScanner.Scanner.Yylex | src/parser/scanner.c:801-1121 | Skips blanks and newlines and nothing else, and returns what comes next, with its earliest rule and that rule's code, leaving the tokens after it; 0 exactly when nothing else is left |
| BufferedScanner.Scanner.Reopen | src/parser/include/console.h:9 | A scanner at its end goes on with another file |
| ConfigText.UnescapeOfEscape | src/parser/scanner.l:60 | Escaping quotes and backslashes gives a text that the string rule accepts between quotes, and can be undone |
| ConfigText.DecimalSkipsZeros | src/parser/scanner.l:35 | Leading zeros do not change the value of a number |
| ConfigText.DecimalOfDigits | src/parser/scanner.l:35 | The digits of a number, a text of rule 11, have its value |
| ConfigText.GapIsDropped | src/parser/scanner.l:65-66 | Blanks and newlines before a text, in any mixture, change nothing |
| ConfigText.PrintThenScan | src/parser/scanner.l:24-66 | Printing any list of statements with any layout and scanning the text gives back the list of their tokens |
| ConfigText.TokensDetermineStatement | src/parser/scanner.l:24-66 | A statement can be read back from its tokens |
| Console.StatementsTakeEffect | src/parser/scanner.l:24-63 | Handling the tokens of a printed list of statements carries out each statement, in order and whatever was set before |
| Console.NumberSetsOne | src/parser/scanner.l:24-38 | A number sets the one field its keyword is for, cut to the width of that field, and nothing without such a keyword |
| Console.StringSetsOne | src/parser/scanner.l:30-63 | A string sets at most the URI its keyword is for |
| Console.WrongKindSetsNothing | src/parser/scanner.l:24-63 | A number after a URI keyword or no keyword, or a string after any other or none, sets nothing, and the keyword is used up |
| Console.OtherTokensSetNothing | src/parser/scanner.l:40-71 | Marks, other identifiers and unmatched bytes set nothing, and the keyword stays pending |
| Console.UnquoteIs | src/include/unquote_string.h:7-20 | For every input and field: the stored text is the input up to its NUL, without one pair of outer quotes if it has both, cut to one byte less than the field; what lies behind it is zeroed without quotes and kept with them |
| Console.UriSurvivesIff | src/include/unquote_string.h:7-20 | For every URI, what is stored for its quoted form is the URI itself exactly when it fits without quotes or backslashes, or fills the field with backslashes only at its end, where the cut removes the escapes |
| Console.StoredUri | src/include/unquote_string.h:7-20 | What is stored for a quoted URI: its escaped form, cut to one byte less than the field |
| Console.ConfigRoundTripIff | etc/dmmr_orbit.conf:1-10 | For every configuration and earlier state: printing it and handling the text's tokens gives it back exactly when its numbers fit their fields and its URIs survive |
| Console.Settings.HandleToken | src/parser/scanner.l:11-13 | The state changes as specified for the token |
| Console.Settings.Run | src/parser/include/console.h:10 | Running to the end of the file handles the maximal-munch tokens of the whole file, in order |
| ConfigReload.SmallEditIsReloadedIff | src/parser/include/dmmr_parser.h:8 | After an edit in place of up to four neighbouring bytes a reload takes effect exactly when the new checksum is not 0 |
| ConfigReload.UnnoticedEndingsIff | src/parser/include/dmmr_parser.h:8 | Whatever a file is made of, exactly two endings of four bytes keep it from being loaded again: the one with the last checksum and the one with checksum 0 |
| ConfigReload.FileWithCrcZero | src/parser/include/dmmr_parser.h:8 | Files with checksum 0 exist, beginning with any data, and are never loaded again |
| ConfigReload.UngeneratedTableNoticesOnce | src/parser/include/dmmr_parser.h:8 | Before the first load, a reload takes a file of four bytes or more exactly if the last checksum is not 0xFFFFFFFF, whatever is in it |
| ConfigReload.PrintedTakesEffect | src/parser/include/console.h:9-10 | Whatever was set before: the tokens of a print of statements carry them out, and those of a printed configuration set it exactly if it is in range |
| ConfigReload.Parser.RunConsole | src/parser/include/console.h:9-10 | From a cleared setting all visible tokens of the file are handled: a file that prints statements carries them out and leaves no keyword pending; one that prints a configuration sets exactly that, if and only if it is in range |
| ConfigReload.Parser.Load | src/parser/include/dmmr_parser.h:7 | The same for the whole of a file that opens, and its checksum is kept; one that cannot be opened only makes the console forget the keyword seen last |
| ConfigReload.Parser.Reload | src/parser/include/dmmr_parser.h:8 | Before or after a load, the file is loaded again, with the same effect on the settings, exactly when its checksum through the table is neither 0 nor the last one; otherwise nothing changes |

## Left out

- Sockets, DNS, threads, sleeps, clocks, logging, exceptions by `setjmp`, and the daemon, plugin and server headers: input, output and calls into other libraries.
- Mutexes and condition variables: a locked region is one step. `count_node` and the scan in `copy_buffer` are not locked and have sequential contracts only.
- What a torn look sees: the model says when a look is torn, not which bytes it mixes. The sending of nodes from the pool by worker or deadline is one step.
- `get_current_node` calls itself; the model uses the inner function it was meant to call.
- `update_session_counter` is taken not to touch the pool.
- The order of `node_cmp`, whose results other than 0 are all the same to the session, and NULL nodes in it but for a session without one.
- The address a batch is sent to, which is taken from its first node, and the result of `writev` and `sendmsg`.
- The scheduler's slots, deadlines and clock, and `sched_snd`, which nothing calls: the deadline may strike at any step.
- SessionScheduler.UndisturbedConserves: for deadlines that mix with the worker's steps the condition is sufficient only, because a deadline can be spread out so that it does no harm at such a point (`SessionDeadlines.SlowDeadlineConserves`); for undivided deadlines it is exact (`SessionDeadlines.DeadlinesConserveIff`).
- The pool after a negative move (`src/session/session_connection.c`, line 65): the worker stops there.
- `on_receive_connection_cb` takes the manager's mutex and then calls `get_buzy_node`, which takes it again: the model has the call go through.
- Several connections feed one FIFO and share its cells: `Reception` follows one of them.
- Pipeline.ReceivedToOutput: assumes a writer that empties its batch after publishing it; `Pipeline.FirstBatchToOutput` is about the writer as it is.
- A reader that has left the ring: what it reads at the head of the list is not a node, and it takes no further steps.
- NULL arguments and failed allocations, other than the one of the pool's growth.
- The overflow of `pool_size` when doubled, and of the scanner's buffer size past `INT_MAX`: sizes are unbounded.
- A ring of one slot: `circle_buffer_size` is at least 2.
- The MINIMAL profile of `mtu_config.h` does not meet the static assertion of that file, so it has no limit to speak of.
- RecvManager.ManagerIsFifo: runs without recycling only, because a recycled slot leaves a gap in the queue; runs with recycling have the fairness and accounting theorems.
- StringLength.Vlen: the terminating NUL is an argument of the proof, because without one the loop does not end.
- Stacks of scanner buffers, scanning from memory, interactive input, `input`, and the accessors of the generated scanner: a single buffer of our own that reads a file.
- Field copies, `strlcpy`, `__vcpy`, `__vcmp`, `calculate_slot_sleep_us`: simple members that would add easy contracts.
- `get_node`, `get_tcp_node`, `recno` and `stop_session_connection`: allocation and teardown of sockets and sessions.
- The file changing between the checksum and the load of a reload: both see the same contents.
