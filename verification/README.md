# Verified models of a page table, a blocking queue, a message-slot device and a counting service

The project models four C programs of the repository and proves what they are for. Each has a
class whose methods follow the C code in place, a functional description of what the methods do,
and theorems about whole runs of it.

**Page table** (`words.dfy`, `entries.dfy`, `page_table.dfy`, `page_table_runs.dfy`,
`page_table_examples.dfy`, `os.dfy`).
Five levels of 512-entry tables live in 4 KB frames that are linked by tagged 64-bit words. The
methods of `Os.Machine` compute the C expressions (`Shl`, `Shr`, `And`, `Or`, `Sub` on 64-bit
words); the `*Bits` lemmas give their arithmetic meaning. The frames form a forest: each frame is
a root, or stands at one place below one root. From this follow the main results over any
interleaving of root allocations and updates: a query returns what was last written for its page;
frames in use are the roots and the tables that mappings have needed; the process ends exactly when
memory is used up; two walks stand on one frame only if they came the same way.

**Blocking queue** (`queue_protocol.dfy`, `queue.dfy`). A section of code that holds the mutex is
one step, and `dequeue` is split where it waits. The protocol is a state machine over all
schedules, with spurious wake-ups (section 7.26.3.6 of ISO C11); the class `BlockingQueue.Queue`
works on the linked lists of items and of waiting threads, and each of its sections takes the
machine through one step.

**Message slots** (`slot_layout.dfy`, `slot_lookup.dfy`, `slot_model.dfy`, `slot_answers.dfy`,
`slot_examples.dfy`, `message_slot.dfy`). Kernel memory is a map from live addresses to blocks. Reading, writing or
freeing through an address requires that it is live, so that every use after a free and every double
free would be an error of the model; the one place where the code can leave the live blocks is an
outcome of its own (`Astray`, `Stray`). The heap is shown to be exactly the lists, nodes and buffers
that the stored messages call for, after every call and on every failure path, and reads are related
to the calls made before them.

**Printable-character service** (`pcc_model.dfy`, `pcc.dfy`). Both ends of the connection, with
every way in which `recv`, `send` and `read` may split the data, and 32-bit counters.

## Where the code does less than one might expect

- The walk ignores bits 0..11 and 57..63 of a page number. Two pages share a mapping exactly if
  bits 12..56 agree (`UpdateShowsExactlyAtItsKey`, `SamePathIffSameKey`); so mapping page 0xcaff changes
  the answer for 0xcafe, against what disabled checks at hw1/os.c:73-76 ask for (`NeighboursAlias`,
  and the run `NeighboursOverwrite`).
- A page number comes back unchanged exactly if it is below 2^52 or is the NO_MAPPING mark
  (`RoundTripExactlyOn52Bits`); 2^52 comes back as 0 (`WideNumberIsCut`).
- Opening a message-slot device sets the size of a new list but not its first node. Writes and the
  clean-up go by the size and are right whatever that word holds. Only reads follow it. They look up
  every channel rightly exactly if the list has a node, which it has once a write to the minor number
  got one, or the word was NULL (`LookUpsAreRightExactlyIfSound`, `HasNodeIffWritten`); they leave the
  live nodes exactly if the list has none and the word is neither NULL nor the address of a node
  (`StraysExactlyIf`, `DeviceRead`, and the run `ReadGoesAstray`). If it is the address of a node, the
  reads answer with messages of the list that owns it, which may be another device's
  (`BorrowedAnswer`, `DeviceRead`, and the run `ReadBorrowsNode`). A list that has a node, or whose
  first word was NULL, is called sound below.
- A write sets the length of its channel before the message has arrived. If it then fails, a read
  (the list is sound, since it has a node) returns that many bytes: a part of the last successful message, or that message and older bytes
  after it, or bytes that no write supplied if none has succeeded. It is the last message exactly if
  the lengths agree (`ReadReturnsLastMessage`, `DeviceRead`, `RunOverlays`, and the runs
  `FailedWriteCutsMessage` and `FailedWriteShowsMemory`).
- Channel ids that agree in their low 32 bits are one channel: what is written through one is read
  through the other, and no other read of a sound list changes. The write makes its own list sound
  and no other (`WriteShowsExactlyAtItsChannel`, and the run `LowBitsAreOneChannel`).
- The client announces the file length in 32 bits. The reply is the count for the whole file exactly
  if nothing printable lies beyond the announced part, and always for files below 2^32 bytes
  (`AnnouncedCount`, `Session`); a file of 2^32 bytes with a letter at its end is counted as 0
  (`LongFileIsCutOff`).
- The client tells only an error from a reply. If the server closes without one, the client prints
  what its variable held and still exits normally; it prints the count, whatever the variable held,
  exactly if the server replied (`Session`, `PrintsCountExactlyIfReplied`, `UnansweredClientPrintsZero`).

## What is taken as given

- Frames from `mmap` are zero; the environment decides beforehand how many calls succeed
  (`Os.Machine.granted`). Page-table arguments were returned by an earlier allocation of a root.
- `kmalloc` returns NULL or an address that is not live, and `copy_to_user` and `copy_from_user`
  succeed or fail, as they like; calls on sockets and files may fail too. A ghost record of such
  failures (`refusals`, `failed`) lets each contract say that a call fails for no other reason.
  A buffer that is not NULL holds as many bytes as it is said to.
- Calls on message slots do not overlap: the driver has no lock, and each call is taken to end before
  the next begins.
- The 4-byte messages of the counting service move whole or not at all; `send` of file data moves at
  least one byte unless it fails; a thread that waits uses its own list node.
- Counters and list sizes of the queue and of the message slots do not reach the limits of their
  integer types.

## Model

| member | source | states |
|---|---|---|
| `Entries.GetIndexBits` | hw1/pt.c:4-6 | the shift-and-mask expression is a base-512 digit of the page number |
| `Entries.PathIsKeyInBase512` | hw1/pt.c:4-6 | the five indices, top level first, are the digits of bits 12..56 of the page number |
| `Entries.SamePathIffSameKey` | hw1/pt.c:4-6 | two page numbers take the same path exactly if bits 12..56 agree |
| `Entries.EntryBits` | hw1/pt.c:16-25 | shifting and setting the valid bit keeps the low 52 bits of the number, without overflow into each other |
| `Entries.EntryRoundTrip` | hw1/pt.c:25-43 | a stored number is valid, reads back modulo 2^52, is unchanged exactly below 2^52, and is never NO_MAPPING |
| `Entries.PresentBits` | hw1/pt.c:12 | the masked bit tells whether the entry is odd |
| `Entries.TargetBits` | hw1/pt.c:18 | clearing the low 12 bits of any entry gives a frame address with offset 0 |
| `Entries.FrameIndexBits` | hw1/os.c:27 | the frame position, with the wrap-around of unsigned subtraction |
| `Entries.OffsetBits` | hw1/os.c:28 | the masked bits are the offset in the frame |
| `Entries.FollowEntry` | hw1/pt.c:16-18 | storing the number of any allocated frame and following it leads to the start of that frame |
| `Entries.FollowRoot` | hw1/pt.c:9 | a walk for an allocated root starts at that root's frame |
| `PageTable.QueryReadsLeaf` | hw1/pt.c:29-44 | in a forest, a query from any level returns what the leaf word of its path holds |
| `PageTable.Grow` | hw1/pt.c:16 | a frame allocated in the middle of a walk joins the forest below the entry it fills |
| `PageTable.UpdateWalk` | hw1/pt.c:8-27 | an update from any level keeps the forest, adds exactly the tables its path lacks, changes one leaf word and no other, and ends the process exactly if those tables do not fit |
| `PageTableRuns.RunIsFaithful` | hw1/pt.c:8-27 | after every legal run the frames are a forest of the roots and the tables needed so far, each leaf word is what was last written, and no bad pointer was followed |
| `PageTableRuns.QueryReturnsLastWrite` | hw1/pt.c:29-44 | after every legal run a query returns what the latest update of its page under its root wrote, or NO_MAPPING |
| `PageTableRuns.QueryAnswersLastUpdate` | hw1/pt.c:29-44 | in numbers: a query answers by the last update that agrees in 52 bits of the table and in bits 12..56 of the page, with its number modulo 2^52, and with all ones if there is none or it unmaps |
| `PageTableRuns.UpdateShowsExactlyAtItsKey` | hw1/pt.c:8-44 | an update changes the answer for the pages with the same bits 12..56 under the same root, to its number modulo 2^52 or all ones, and for no other page or root |
| `PageTableRuns.RoundTripExactlyOn52Bits` | hw1/pt.c:22-43 | a mapping reads back as it was given exactly if it fits in 52 bits or is NO_MAPPING |
| `PageTableRuns.NeighboursAlias` | hw1/os.c:73-76 | mapping page 0xcaff changes the answer for page 0xcafe |
| `PageTableRuns.FramesAccountedFor` | hw1/os.c:10-24 | frames in use are as many as the roots and the distinct tables that mappings have needed |
| `PageTableRuns.TablesAreBeginnings` | hw1/pt.c:10-19 | the tables needed are the beginnings of length 1..4 of the paths of all mappings made, below their roots |
| `PageTableRuns.EndsExactlyWhenFull` | hw1/os.c:15-21 | an operation ends the process exactly if the roots and tables would then exceed the frames that there are |
| `PageTableRuns.UpdateAllocatesMissingTables` | hw1/pt.c:10-19 | an update allocates one frame for each table it is the first to need, at most four; unmapping allocates none, and neither does mapping a page that was mapped before |
| `PageTableRuns.WalksMeetOnlyOnSharedPath` | hw1/pt.c:9-19 | two walks stand on the same frame exactly if they have the same root and chose the same entries, so that frames are not shared and leaf contents are never followed |
| `PageTableExamples.NeighboursOverwrite` | hw1/os.c:73-76 | a run of one root and two mappings after which 0xcafe answers with the mapping of 0xcaff |
| `PageTableExamples.WideNumberIsCut` | hw1/pt.c:25-43 | a run that maps a page to 2^52, after which it answers 0 |
| `Os.Machine.AllocPageFrame` | hw1/os.c:10-24 | the next frame number, from 0xbaaaaaad on, and a zeroed frame of its own, or the end of the process exactly when 0x100000 frames are in use or mmap is refused |
| `Os.Machine.PhysToVirt` | hw1/os.c:25-33 | the frame and the offset that a physical address denotes |
| `Os.Machine.PageTableUpdate` | hw1/pt.c:8-27 | the loop over the frames in memory takes the run of operations one update further; the process ends exactly if roots and tables would exceed 0x100000 or the frames that mmap grants |
| `Os.Machine.Walk` | hw1/pt.c:8-27 | the loop leaves memory as the functional update says |
| `Os.Machine.PageTableQuery` | hw1/pt.c:29-44 | the loop over the frames in memory returns what was last written: the number of the last update that concerns the page, modulo 2^52, or all ones |
| `Os.Machine.NewPageTable` | hw1/os.c:36-50 | a caller's allocation is a new root that no walk has reached before, or ends the process exactly as an allocation does |
| `QueueProtocol.StepKeeps` | hw4/queue.c:69-185 | every step keeps first-in first-out order, the list of waiters, the counts and the absence of lost wake-ups |
| `QueueProtocol.RunKeeps` | hw4/queue.c:69-185 | under every schedule: items and waiters leave in the order they came, the list holds exactly the threads whose flag is set, and while one waits the items are at most as many as the signalled threads |
| `QueueProtocol.ItemsComeAsGiven` | hw4/queue.c:69-185 | under every schedule, the items of the enqueue actions are the items removed and then the items left, in the same order |
| `QueueProtocol.HistoryCounts` | hw4/queue.c:69-185 | the counts that the bounds speak of are those of the actions: calls, tries and wake-ups |
| `QueueProtocol.ItemsNeverStrandThreads` | hw4/queue.c:84-97 | when an item and a blocked thread coexist, a signalled thread can resume and take the first item |
| `QueueProtocol.Quiescence` | hw4/queue.c:107-137 | when nobody is signalled the queue is empty or nobody is blocked |
| `QueueProtocol.AllDelivered` | hw4/queue.c:69-185 | at quiescence, with as many items handed in as calls of `dequeue` and successful calls of `tryDequeue`, all items were taken in the order in which they were handed in, and nobody waits |
| `QueueProtocol.RewaitsBounded` | hw4/queue.c:107-137 | woken threads go back to sleep at most as often as items are taken without waiting |
| `QueueProtocol.Drains` | hw4/queue.c:107-137 | from every reachable state, resuming the signalled threads in any order ends in quiescence |
| `QueueProtocol.StepsBounded` | hw4/queue.c:107-137 | the steps of a run are bounded by its calls, its enqueues and its spurious wake-ups, all counted from the actions |
| `BlockingQueue.Queue.constructor` | hw4/queue.c:34-43 | an empty queue, before any step |
| `BlockingQueue.Queue.Enqueue` | hw4/queue.c:69-100 | on the linked lists: append the very item, remove and signal the first waiter; the items given so far are one more |
| `BlockingQueue.Queue.DequeueEnter` | hw4/queue.c:103-126 | take the next of the items given, the one after as many as were taken before, or join the waiters as the last exactly if the count is 0 |
| `BlockingQueue.Queue.DequeueResume` | hw4/queue.c:125-157 | after a wake-up: sleep on if not signalled; else take the next of the items given, or join the waiters again exactly if the count is 0 |
| `BlockingQueue.Queue.SignalledHasLeft` | hw4/queue.c:129-135 | the clean-up after a wake-up never finds the thread in the list, so it changes nothing |
| `BlockingQueue.Queue.TryDequeue` | hw4/queue.c:160-185 | take the next of the items given, or report that there is none exactly if the count is 0 |
| `BlockingQueue.Queue.Counters` | hw4/queue.c:188-200 | the counters are the lengths of what they count, and size and visited add up to the items given |
| `SlotLayout.InsertKeepsLayout` | hw3/message_slot.c:67-104 | linking a new node in front, in the middle or at the end keeps the list ascending and leaves every other block as it was |
| `SlotLayout.RewriteKeepsLayout` | hw3/message_slot.c:46-49 | setting the contents of one channel leaves every other block as it was |
| `SlotLookup.WalkEndsOnce` | hw3/message_slot.c:34-43 | the walk for a channel has one end |
| `SlotLookup.LookUpsAreRightExactlyIfSound` | hw3/message_slot.c:34-43 | the walk from the first word ends where the channel is, for every channel, exactly if the list has a node or that word is NULL |
| `SlotLookup.StraysExactlyIf` | hw3/message_slot.c:34-43 | a walk, for whatever channel, reads what is not a live node exactly if the list has no node and its first word is neither NULL nor the address of one |
| `SlotModel.RunRemembers` | hw3/message_slot.c:145-234 | after every run the store holds, for each channel, the last length set and at its front the last message, or the memory it was allocated in if there was none |
| `SlotModel.RunOverlays` | hw3/message_slot.c:46-49 | after every run each byte of a buffer is from the last successful message that had a byte at its place, or else from the memory it was allocated in |
| `SlotModel.HasNodeIffWritten` | hw3/message_slot.c:220-223 | a list has a node exactly if a write to its minor number set a length |
| `SlotModel.WriteIsRefused` | hw3/message_slot.c:206-219 | in numbers, which writes are refused before memory is asked for, and with which code |
| `SlotModel.ReadReturnsLastMessage` | hw3/message_slot.c:145-181 | on a sound list, a channel never reached would block; a large enough read has the last length set, each byte of it accounted for, and is the last successful write exactly if that has this length |
| `SlotModel.WriteShowsExactlyAtItsChannel` | hw3/message_slot.c:145-234 | a successful write is the answer to reads through every descriptor with the same minor number and the same low 32 bits of the channel id; all others on a list that was sound answer as before; a list is sound afterwards exactly if it was or is the one written to |
| `SlotAnswers.BorrowedAnswer` | hw3/message_slot.c:34-181 | a list without nodes whose first word is the address of a node answers as the list that owns the node does, from the channel of that node on |
| `SlotExamples.FailedWriteCutsMessage` | hw3/message_slot.c:223-230 | a run with a failed write after which a read returns a part of the message before |
| `SlotExamples.FailedWriteShowsMemory` | hw3/message_slot.c:223-230 | a run with no successful write after which a read returns what the memory held |
| `SlotExamples.LowBitsAreOneChannel` | hw3/message_slot.c:164-220 | a run that writes to channel 1 and reads the message from channel 2^32 + 1 |
| `SlotExamples.ReadGoesAstray` | hw3/message_slot.c:137-164 | a run of an open and a set channel after which a read takes a dead address for the first node |
| `SlotExamples.ReadBorrowsNode` | hw3/message_slot.c:137-164 | a run of two writes to one minor number after each of which a read of another, never written, answers with the letter written |
| `MessageSlot.SlotDevice.FindChannelId` | hw3/message_slot.c:34-43 | where the walk ends; the node of the channel, or NULL exactly if it has none, on a list with a node or with a NULL first word; and exactly when it goes astray |
| `MessageSlot.SlotDevice.CreateNode` | hw3/message_slot.c:52-64 | two new blocks, or none if either allocation fails |
| `MessageSlot.SlotDevice.GetOrCreateNode` | hw3/message_slot.c:67-104 | the one node of the channel, all other channels untouched, and nothing changed if allocation fails, whatever the first word of an empty list is |
| `MessageSlot.SlotDevice.DeviceOpen` | hw3/message_slot.c:129-142 | a new list without nodes for a new minor number, with a first word that stays as the memory held it; the run of calls one open further |
| `MessageSlot.SlotDevice.DeviceIoctl` | hw3/message_slot.c:184-194 | command 0x4008F000 with a parameter sets the channel of one open file and answers 0; anything else answers -22 and changes nothing |
| `MessageSlot.SlotDevice.DeviceRead` | hw3/message_slot.c:145-181 | on a sound list the reply in terms of the calls made before, byte for byte, and exactly when each error is returned; on any other list exactly when the read goes astray, and else the reply of the list whose node it finds; the heap is as before |
| `MessageSlot.SlotDevice.ReadChannel` | hw3/message_slot.c:145-181 | on any list, sound or not, the answer that the end of the walk calls for; the heap is as before |
| `MessageSlot.SlotDevice.DeviceWrite` | hw3/message_slot.c:197-234 | -90 exactly for a length of 0 or above 128, -22 exactly for a missing channel, -28 exactly for a missing buffer or refused memory or copy, and otherwise the length; what each makes of the last length and the last message of every channel |
| `MessageSlot.SlotDevice.WriteChannel` | hw3/message_slot.c:197-234 | what each outcome of a write makes of the store |
| `MessageSlot.SlotDevice.SetMsg` | hw3/message_slot.c:46-49 | the new bytes in front of the old ones, and the new length |
| `MessageSlot.SlotDevice.ListIsAscending` | hw3/message_slot.c:67-104 | following a list visits its channels once each, in ascending order, as many as its size says, and then ends |
| `MessageSlot.SlotDevice.LiveIsReachable` | hw3/message_slot.c:31-104 | the live allocations are exactly the blocks reachable from the device array |
| `MessageSlot.SlotDevice.FreeLst` | hw3/message_slot.c:113-126 | the blocks of one list are freed, once each, and no others |
| `MessageSlot.SlotDevice.SimpleCleanup` | hw3/message_slot.c:260-272 | nothing stays allocated |
| `PccModel.HistogramAddsUp` | hw5/pcc_server.c:60-65 | the characters of a histogram add up to the count |
| `PccModel.CountIsPlaces` | hw5/pcc_server.c:60-65 | the count is the number of places with a byte from 32 to 126 |
| `PccModel.TotalsInNumbers` | hw5/pcc_server.c:12-77 | there are 95 totals, and that of each byte from 32 to 126 is the number of its places in all bodies, modulo 2^32 |
| `PccModel.TotalsMatchReplies` | hw5/pcc_server.c:69-77 | over all sessions, totals and replies of the successful ones add up to the same, modulo 2^32 |
| `PccModel.NetworkRoundTrip` | hw5/pcc_server.c:43-69 | a 32-bit word survives the conversion to network order and back |
| `PccModel.NetworkWeights` | hw5/pcc_server.c:43-69 | the four bytes of a word are the only ones that weigh as much, the first weighing most |
| `PccModel.NetworkOrder` | hw5/pcc_server.c:43-69 | one word is below another exactly if its bytes come before, compared from the first |
| `PccModel.AnnouncedCount` | hw5/pcc_client.c:69 | the count for the announced part is the count for the file exactly if nothing printable follows it |
| `PccModel.LongFileIsCutOff` | hw5/pcc_client.c:69 | a file of 2^32 bytes with a letter at its end, for which the count of the announced part is 0 |
| `PccModel.PrintsCountExactlyIfReplied` | hw5/pcc_client.c:98-108 | the printed number is the count, whatever the variable held before, exactly if there was a reply |
| `PccModel.UnansweredClientPrintsZero` | hw5/pcc_client.c:98-108 | without a reply the client may print 0 for a file with a printable character |
| `Pcc.Server.CountPrintableCharacters` | hw5/pcc_server.c:31-78 | a session succeeds exactly if no call failed and as many bytes arrived as the header says, first byte weighing most; then the reply is the number of bytes from 32 to 126, and each of the 95 totals grows by the places of its byte, modulo 2^32; otherwise nothing changes |
| `Pcc.Server.Tally` | hw5/pcc_server.c:60-65 | one chunk is counted exactly, without wrapping round |
| `Pcc.Server.Commit` | hw5/pcc_server.c:75-77 | the totals are those of one session more, modulo 2^32 |
| `Pcc.Client.SendFile` | hw5/pcc_client.c:69-96 | whatever the splits, what is sent is the length modulo 2^32 in four bytes, first byte weighing most, and then the file, or a prefix of it exactly if a call failed |
| `Pcc.Client.SendChunk` | hw5/pcc_client.c:79-89 | one chunk is sent in order and without gaps |
| `Pcc.Client.ReceiveCount` | hw5/pcc_client.c:98-108 | only an error makes the client fail; else it prints the reply, or its uninitialised variable if none came |
| `Pcc.Session` | hw5/pcc_client.c:59-108 | end to end: the server replies exactly if it counts, and then counts the announced part of the file; a client that exits normally prints the count for it if the server replied, and its uninitialised variable otherwise |

## Left out

- The order in which woken threads take items: a woken thread can be overtaken, and the code does not promise otherwise.
- Two threads inside one section of the queue, memory order and the mutex itself: a section is one step.
- `destroyQueue` (hw4/queue.c:46-66), freeing of queue items, and failure of `malloc` in `enqueue`.
- BlockingQueue.Queue.Counters: `size`, `visited` and `waiting` read without the mutex; they are modelled between steps.
- The C pointers of hw1/os.c beyond the allocated frames: `PhysToVirt` gives NULL for a frame number that was never handed out.
- hw2 (the shell): processes, pipes and signals.
- hw3/message_reader.c and hw3/message_sender.c, registration of the device, `printk`, and contents of a temporary buffer after a failed copy.
- Set-up of sockets, the accept loop, the signal handler and its printing, and partial transfers of the 4-byte messages.
- Programs and functions that only test the others.
