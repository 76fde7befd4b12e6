# Verified models of the VPN client's protocols and algorithms

This project models the parts of the client whose correctness is not visible in any one
function, and proves what they are meant to guarantee.

| files | what they model |
|---|---|
| NamedMutexes, LockMachine, LockInvariant, LockTheorems, LockFaults, LockedFile, LocalPeer | the inter-process reader/writer lock built from named Win32 mutexes, and the single-instance election on top of it |
| StunProbe, StunPacket, StunWire, StunReceiver, StunClient, StunWriter | the order in which STUN servers are asked, the packet parser with its buffer and what it means for the bytes of a packet, the two together, and the attribute writer |
| ServiceHandshake, ServiceControls | the three threads that start and control the Windows service, and what each control leads to |
| TextCodec, TextEncoding, Framing, ServiceSocket, ServiceClients, ServiceLeftover, ClientConnection, LogReader | the "\r\n" control socket, the '\n' command link from GUI to service, and the incremental OpenVPN log reader |
| PortNames, Setting, Catalogue, Jump, PortLoop, Sorting | the server catalogue, the published port lists and their readers, the choice of a server to jump to, and the retry loop |
| Options, Sequences | shared definitions |

## How the models are built

**The lock.** `LockMachine.Step` is one Win32 call of one process; between two calls any other
process may take any number of steps, a Win32 call may fail, and a process may die at any
point and be replaced. `LockInvariant.Inv` holds in every state of every run
(`RunKeepsInv`, `ReachableKeepsInv`), so the lemmas that require `Inv` speak about every
reachable state. "p holds the lock" means that p stands between a successful `lock` and the
start of its `unlock`, because `m_lock_mode` is set to `WriteLock` for a moment while a failed
attempt is cleaned up. `missed` is no field of the source: it remembers which opens failed in a
scan and decides nothing; without such failures it stays empty. `LockedFile` is the same code
in its own form, with the object's fields and the loops over the slots; every Win32 call in it
is a step of the machine with arbitrary interference before it, and its contract is the
documented one. `SpecNext` in `LockTheorems` is the documented lock
(src/application/qtlockedfile.cpp:49-53) written down independently.

**The service.** `ServiceHandshake.Step` is one operation of one thread on the semaphores, the
mutex, the condition, the event queue or the status. `Reachable` covers every interleaving,
every outcome of what can fail or time out, and spurious wakeups.

**The rest** follows the code: objects with fields that methods update, loops with
invariants, each proved against a specification function about which the lemmas speak. The
functions that everything else rests on are tied to what they stand for by laws that do not
use them: bytes at offsets (`StunWire`), RFC 3629 and UTF-16 (`TextEncoding`), the order of a
dictionary and of first appearance (`Catalogue`), the controls that Windows delivers
(`ServiceControls`), the stored settings (`RequestCarries`).
Random draws, system calls, peers and the contents of files are parameters.

## Where the code does not do what one expects

Each of these is a lemma with the exact condition under which the expectation holds.

- The "\r\n" control socket decodes every chunk by itself, as UTF-8 up to the first NUL. For
  bytes 1..127 that does no harm, and the commands executed are the pieces of the stream, for
  every chunking, if and only if no piece is empty (`PlainBytesExecute`); for any bytes whose
  unfinished tail is ASCII without NUL they are if and only if every piece is ASCII without
  NUL and not empty (`BytesExecute`); a NUL in the tail can add a command (`NulInTail`).
  Otherwise it can matter where a chunk ends (`SplitCharacter`, `NulCut`), and behind an empty
  command the next one waits for another chunk (`EmptyCommandStalls`).
- `sendCmd` writes Latin-1: its commands are executed as they were sent if and only if each is
  ASCII without NUL, not empty, and without a "\r\n" in it (`CommandsArrive`). That all
  chunkings agree on some other commands can happen: a lone byte FF is one replacement
  character in each of them.
- The cache of a closed control socket is kept under its address. A later connection at the
  same address executes what its chunks add to that cache (`ReusedSocket`): first the commands
  that had stalled there, then its own stream behind the unfinished text (`LeftoverFirst`).
  The pieces of the two together are those of its stream if and only if nothing was left over
  or nothing complete is there (`LeftoverChangesCommands`); a stalled command is executed even
  if the new connection sends nothing complete (`StalledCommand`); and whatever commands a
  connection sends, and however their bytes are cut into chunks that are not empty, those are
  the commands executed, if and only if the cache it finds is empty (`LeftoverHarmless`,
  `OneCommandHarmless`, `EmptyCacheOnly`).
- `sendCommand` writes Latin-1 where the receiver parses UTF-8: every text arrives as it was
  if and only if all texts are ASCII (`JsonArrives`).
- The log reader asks for the file's size again after the read: its reads are the file's bytes
  if and only if nothing was appended in between (`OpenvpnManager.Valid`), and a line that is
  written in two parts is handed over as two lines (`LinesOfRun`, `PlainLines`).
- The startup handler of the service is woken after `start()` if and only if no control was in
  work when it posted its event (`WokenAfterStart`); as long as it waits behind a control and
  the event loop runs, RUNNING can be reported before `start()` is even called
  (`EarlyRunning`, `ControlInFront`). The code relies on Windows to hold controls back until
  then.
- The list of hubs is published through the same settings as the list of servers: after it has
  arrived a port can be chosen if and only if a hub offers it (`HubsReplacePorts`).
- With hubs shown, which is the default, a connect command takes its settings from the server
  with the current index and goes to the hub with that index. Every request of a retry loop
  reaches the server whose turn it is if and only if servers are shown or the two lists have
  the same machine at every index that the loop visits, and it dereferences a null pointer if
  and only if hubs are shown and there are too few of them for one of these indices
  (`LoopReachesServers`, `ServerLoopReachesServers`, `PortLoopReachesServer`,
  `LoopMeetsNull`). `jump()` does connect to the hub it chose, provided that its index is also
  one of a server (`DoJump`).
- Any n requests of the port loop ask for each of the n ports once if and only if the stored
  index is at least -1 (`EachPortOnce`); walking the servers does not wrap (`NodesInOrder`).
- An accepted STUN reply need not have an address: the one that is left is one the packet
  carries if and only if some attribute is an 8-byte MAPPED-ADDRESS, and zero otherwise
  (`AcceptedAddress`).
- `getMutexHandle` answers alike for a mutex that does not exist and for one that cannot be
  opened. Whatever opens fail, two writers never hold the lock together, and a reader holds it
  beside a writer if and only if the writer's scan missed the reader's slot in this way
  (`ExclusionExactly`, `ExclusionUnlessMissed`, `MissedByFault`); that this happens is shown
  by a run (`MissedSlotBreaksExclusion`).
- A multi-wait that reports WAIT_ABANDONED_0 + i for i > 0 has succeeded, but `lock` treats it
  as a failure; its cleanup gives back all that was acquired, so the contract still holds
  (`LockContract` covers this outcome).
- `lock(WriteLock)` by a holder of a read lock that cannot be granted returns false with the
  read lock gone; the contract states it as mode NoLock.

## Model

| member | source | states |
|---|---|---|
| LockTheorems.MutualExclusion | src/application/qtlockedfile_win.cpp:104-203 | in every state of every run, while one process holds the write lock no other process holds a read or a write lock |
| LockTheorems.ReadersOwnDistinctSlots | src/application/qtlockedfile_win.cpp:126-144 | concurrent readers own pairwise different reader mutexes, each a slot below MAX_READERS |
| LockTheorems.ReadersBelowLimit | src/application/qtlockedfile_win.cpp:126-152 | a reader is only granted while fewer than 64 others hold the lock |
| LockTheorems.ScanCollectsReaders | src/application/qtlockedfile_win.cpp:153-162 | the writer's non-atomic scan ends with the slot of every reader collected, also of one in the middle of its unlock, whatever gaps the slots have |
| LockTheorems.ScanFitsMultiWait | src/application/qtlockedfile_win.cpp:155-162 | the multi-wait is given at most MAXIMUM_WAIT_OBJECTS = 64 handles |
| LockFaults.ReaderFaultKeepsInv | src/application/qtlockedfile_win.cpp:73-80 | a reader that cannot open an existing slot keeps the invariant: it goes on as if the slot were missing |
| LockFaults.ReachedKeepsBase | src/application/qtlockedfile_win.cpp:73-80 | with opens failing anywhere and at any time, everything the invariant says stays true but for the slots that a scan missed |
| LockFaults.MissedByFault | src/application/qtlockedfile_win.cpp:153-159 | a process comes to miss a slot exactly when the open of that slot in its scan fails |
| LockFaults.ExclusionExactly | src/application/qtlockedfile_win.cpp:73-80 | in every state of every run with failing opens, beside a process with the write lock there is no other with the write lock, and one with a read lock exactly when its slot is among those the writer missed |
| LockFaults.ExclusionUnlessMissed | src/application/qtlockedfile_win.cpp:153-171 | so locks exclude each other in a state if and only if no writer's scan missed the slot of a reader |
| LockFaults.MissedSlotBreaksExclusion | src/application/qtlockedfile_win.cpp:153-159 | a run with one missed slot ends with a writer and a reader holding the lock together |
| LockTheorems.NewSlotIsFree | src/application/qtlockedfile_win.cpp:140-144 | unless an open has failed, the non-blocking wait on a slot just created under the writer mutex obtains it |
| LockTheorems.WaitsAreNotRecursive | src/application/qtlockedfile_win.cpp:117-162 | no process waits for a mutex it owns, and a write attempt starts with rmutexes empty (the assertion at line 154) |
| LockTheorems.StepRefinesSpec | src/application/qtlockedfile.cpp:49-53 | every step of every process is a step of the documented lock: grant when the holders permit it, release, or no change |
| LockTheorems.RunRefinesSpec | src/application/qtlockedfile.cpp:49-53 | every run, seen through its holders, is a run of the documented lock that starts unlocked |
| LockTheorems.LockContract | src/application/qtlockedfile_win.cpp:104-175 | lock(m) returns true exactly when m is held afterwards; on false the process owns no mutex, has no slots collected and keeps at most the handle of the writer mutex |
| LockTheorems.BlockedWaitsFor | src/application/qtlockedfile_win.cpp:117-171 | a blocked process waits for the owner of a mutex it needs, and if that one is blocked too it is a writer waiting for readers |
| LockTheorems.NoDeadlock | src/application/qtlockedfile_win.cpp:117-171 | from a blocked process at most two waits lead to a process that can go on, or that holds a lock it may release |
| LockTheorems.CallsEnd | src/application/qtlockedfile_win.cpp:104-211 | every step of a call in progress brings it closer to its end, of at most CALL_BOUND steps |
| LockInvariant.StepKeepsInv | src/application/qtlockedfile_win.cpp:104-211 | every Win32 call, failure, crash and new call by any process keeps the ownership and handle invariant |
| LockInvariant.StepKeepsSlots | src/application/qtlockedfile_win.cpp:129-144 | a slot that was not found stays missing, and once created is nobody else's, while the reader owns the writer mutex |
| LockInvariant.RunKeepsInv | src/application/qtlockedfile_win.cpp:104-211 | the invariant holds in every state of every run |
| LockInvariant.ReachableKeepsInv | src/application/qtlockedfile_win.cpp:104-211 | the invariant holds in every reachable state |
| LockedFile.Machine.constructor | src/application/qtlockedfile_win.cpp:104-211 | a machine starts in any initial state with any schedule of the other processes |
| LockedFile.Machine.Wait | src/application/qtlockedfile_win.cpp:85-100 | a wait succeeds exactly when the machine grants it; a blocking one may be left waiting; any interference may come before |
| LockedFile.QtLockedFile.FindSlot | src/application/qtlockedfile_win.cpp:127-144 | the loop over the slots ends at a slot of its own or reports failure; undisturbed it succeeds exactly when some slot is not taken |
| LockedFile.RoomForReader | src/application/qtlockedfile_win.cpp:126-144 | a slot is free exactly when fewer than 64 others hold a read lock |
| LockedFile.QtLockedFile.AcquireReader | src/application/qtlockedfile_win.cpp:126-152 | the reader branch: the writer mutex is released on every path; undisturbed it succeeds exactly when a slot is free |
| LockedFile.QtLockedFile.ScanSlots | src/application/qtlockedfile_win.cpp:155-159 | the loop over the slots ends with the handles the process has collected in rmutexes; undisturbed it changes no other process |
| LockedFile.QtLockedFile.AcquireWriter | src/application/qtlockedfile_win.cpp:153-171 | the writer branch: undisturbed it succeeds exactly when there is no reader, and otherwise waits or cleans up |
| LockedFile.QtLockedFile.Lock | src/application/qtlockedfile_win.cpp:104-175 | under every interference true means the mode is held and false means nothing is; a lock already held in that mode is kept and true is returned; undisturbed the outcome is the one expected from the other holders |
| LockedFile.QtLockedFile.Unlock | src/application/qtlockedfile_win.cpp:177-203 | afterwards nothing is held or owned; the result tells whether the file is open |
| LocalPeer.QtLocalPeer.IsClient | src/application/qtlocalpeer.cpp:113-133 | false exactly when a lock is held afterwards; undisturbed, a client is one that finds another holder |
| LocalPeer.PrimaryStays | src/application/qtlocalpeer.cpp:113-133 | a primary instance holds the write lock for as long as it lives |
| LocalPeer.SingleInstance | src/application/qtlocalpeer.cpp:113-133 | at most one live process has had isClient() return false |
| StunProbe.RefillBytes | src/application/stun.cpp:542-542 | one round moves the eight bytes of the number one place down and puts ff on top |
| StunProbe.ChooseStep | src/application/stun.cpp:539-544 | for every 64-bit number the loop ends within eight rounds with a step in 1..262, the first that is not a multiple of 263 |
| StunProbe.NoShortCycle | src/application/stun.cpp:546-549 | no multiple d * step with 0 < d < 263 is divisible by 263 |
| StunProbe.EveryServerProbed | src/application/stun.cpp:548-549 | each of the 263 servers is asked at exactly one of the first 263 attempts |
| StunProbe.ProbeOrder | src/application/stun.cpp:548-549 | the full run of 525 attempts asks every server twice, except the one at start mod 263, which is asked once |
| StunClient.StunRequest | src/application/stun.cpp:494-528 | a request succeeds exactly when a reply is accepted, and then leaves the address that stands in that reply's bytes |
| StunClient.GetExternalIPbySTUN | src/application/stun.cpp:536-558 | the first server asked is start + step, each one a step further modulo 263, with the step of the first suitable round; the result is the first attempt whose reply is accepted, with the server asked then and the address in the bytes of that reply; -1 only when all 525 attempts failed, and then every server was asked |
| StunWire.VerdictOnWire | src/application/stun.cpp:382-427 | the return value for every packet in terms of its bytes: -20, the length, -21 or -22 according to where going from attribute to attribute, by the two length bytes of each, leads |
| StunWire.AddressOnWire | src/application/stun.cpp:434-444 | the address taken from an accepted packet is the two and four bytes behind the last 00 01 00 08 x y at an attribute boundary, and zero if there is none (RFC 3489, section 11.2.1) |
| StunPacket.ParseSound | src/application/stun.cpp:391-414 | the attributes and the rest make up the body, and no complete attribute is left in the rest (RFC 3489, section 11.2) |
| StunPacket.ParseUnique | src/application/stun.cpp:391-414 | and this is the only way to split the body |
| StunPacket.VerdictMeaning | src/application/stun.cpp:382-427 | the return value is the length, -21 or -22 exactly when the clipped body is all attributes, ends in a stump of a header, or ends in an attribute that is cut short |
| StunPacket.MappedIsLast | src/application/stun.cpp:434-444 | the address left is that of the last 8-byte MAPPED-ADDRESS, or the one before (RFC 3489, section 11.2.1) |
| StunPacket.AcceptedAddress | src/application/stun.cpp:385-444 | the body of an accepted packet is its attributes; the address left is one it carries if and only if one of them is an 8-byte MAPPED-ADDRESS, and zero otherwise |
| StunPacket.EmptyReplyIsAccepted | src/application/stun.cpp:385-427 | accepted replies without an address exist: every one that announces no attributes |
| StunReceiver.ScrubTerminates | src/application/stun.cpp:408-421 | after the walk every attribute value is still in place and is followed by a zero byte |
| StunReceiver.ScrubOnWire | src/application/stun.cpp:408-421 | exactly the two type bytes of each complete attribute and the byte at which the walk stops become zero; every other byte stays |
| StunReceiver.GetMapped | src/application/stun.cpp:434-444 | the address changes exactly where the attribute begins with the bytes 00 01 00 08, to the port and address at its bytes 6 and 8 |
| StunReceiver.WalkRound | src/application/stun.cpp:391-414 | one round handles the next attribute of the body or stops with its error |
| StunReceiver.WalkAttrs | src/application/stun.cpp:391-421 | the loop ends, stays in bounds and hands over exactly the parsed attributes; the buffer is the scrubbed one |
| StunReceiver.HandlePacket | src/application/stun.cpp:370-428 | for every buffer: the return value, the attributes seen by the callback, the address left, which bytes of the packet both depend on, and every byte of the buffer afterwards |
| StunReceiver.ReceiveReply | src/application/stun.cpp:474-491 | -11 and -12 without a reply, which leave the address alone; otherwise at most 1023 bytes are handled, and of an accepted reply the address is the one in the last 00 01 00 08 at an attribute boundary |
| StunWriter.MessageWriter.Append | src/application/ministun.c:187-198 | an attribute is appended exactly when there is more room than it takes; len + left never changes |
| StunWriter.MessageWriter.AppendString | src/application/ministun.c:187-198 | a string becomes the next attribute of the message if it fits |
| StunWriter.MessageWriter.AppendAddress | src/application/ministun.c:201-217 | an address becomes the next attribute of the message if it fits |
| StunWriter.RoundTrip | src/application/ministun.c:187-217 | a framed message of appended attributes parses without error back to the same attributes |
| StunWriter.AddressSurvives | src/application/ministun.c:201-217 | the address written is the address the reader extracts |
| StunWriter.AddressOnWireAs | src/application/ministun.c:201-217 | a MAPPED-ADDRESS is written as 00 01 00 08 00 01, the port and the address |
| StunWriter.StringOnWire | src/application/ministun.c:187-198 | a string is written behind its number and its length, each with the high byte first |
| StunWriter.WriteAll | src/application/ministun.c:187-217 | any sequence of appends leaves exactly those attributes that fitted when their turn came |
| StunWriter.SendAndReceive | src/application/stun.cpp:370-444 | what was appended is what the receiver's walk over the buffer sees, with the last mapped address |
| ServiceHandshake.StepKeepsInv | src/common/qtservice/qtservice_win.cpp:557-862 | every operation of every thread keeps the invariant of the handshake |
| ServiceHandshake.ReachableKeepsInv | src/common/qtservice/qtservice_win.cpp:557-862 | the invariant holds in every interleaving |
| ServiceHandshake.ArgsBeforeApplication | src/common/qtservice/qtservice_win.cpp:571-575 | the application is created only after serviceMain has passed its arguments on and not after a failed dispatcher call; the handler is registered only after its receiver exists |
| ServiceHandshake.NoPostBeforeHandler | src/common/qtservice/qtservice_win.cpp:619-665 | no control event is posted before controllerHandler exists |
| ServiceHandshake.HandledInOrder | src/common/qtservice/qtservice_win.cpp:590-616 | events are handled once each, in the order of posting: the numbers of those handled, in hand and in the queue follow on each other |
| ServiceControls.CallbacksInOrder | src/common/qtservice/qtservice_win.cpp:590-612 | in every run the callback with number n is the one asked for by the control whose event was posted with number n: start, stop for stop and shutdown, pause, resume, or processCommand with its number |
| ServiceControls.CallbackMade | src/common/qtservice/qtservice_win.cpp:590-665 | and every control whose event was posted gets its callback, which is made as soon as so many have returned; until then its event is in work |
| ServiceControls.QuitsExactly | src/common/qtservice/qtservice_win.cpp:598-601 | in every state of every run quit() has been called if and only if a stop or shutdown control was delivered and the callback of its event has returned; the event loop ends in no other way |
| ServiceControls.EndsOnlyByStop | src/common/qtservice/qtservice_win.cpp:598-657 | an event loop that was told to end, or has ended, was preceded by the delivery of a stop or a shutdown |
| ServiceControls.StopEnds | src/common/qtservice/qtservice_win.cpp:598-657 | from every reachable state in which the handler waits with a stop or a shutdown, every run without new controls that comes to rest has ended the event loop |
| ServiceControls.ComesToRest | src/common/qtservice/qtservice_win.cpp:557-862 | and from every reachable state the program does come to rest |
| ServiceControls.ControlServed | src/common/qtservice/qtservice_win.cpp:613-684 | a control delivered while nothing else is in work: its callback, the statuses that Windows is told, in order, and whether the program is told to quit |
| ServiceControls.StartupServed | src/common/qtservice/qtservice_win.cpp:619-631 | the same for the startup with nothing in front of it: START_PENDING, start(), RUNNING, RUNNING |
| ServiceHandshake.NoLostWakeup | src/common/qtservice/qtservice_win.cpp:619-668 | a handler that waits has its own event queued, being handled, or not yet acknowledged |
| ServiceHandshake.RunningMeansStarted | src/common/qtservice/qtservice_win.cpp:626-631 | without spurious wakeups, if the startup event is the first one posted, RUNNING is reported only after start() has returned |
| ServiceHandshake.WokenAfterStart | src/common/qtservice/qtservice_win.cpp:613-631 | the startup handler is woken after start() if and only if no control was in work when it posted its event |
| ServiceHandshake.WokenByOwnEvent | src/common/qtservice/qtservice_win.cpp:613-668 | a woken handler's own callback has returned if and only if its own event is being acknowledged |
| ServiceHandshake.PendingBeforeDone | src/common/qtservice/qtservice_win.cpp:619-684 | in every interleaving, also with spurious or early wakeups, RUNNING and PAUSED are reported only after the matching pending status |
| ServiceHandshake.EarlyRunning | src/common/qtservice/qtservice_win.cpp:613-631 | from every reachable state in which the startup handler waits behind a control and the event loop has not ended, RUNNING can be reported before start() is called |
| ServiceHandshake.ControlInFront | src/common/qtservice/qtservice_win.cpp:571-582 | for every control there is a run in which it arrives between registration and the startup event and leads to such a state |
| ServiceHandshake.StepWorks | src/common/qtservice/qtservice_win.cpp:557-862 | every step of the program itself reduces the work left |
| ServiceHandshake.RunsEnd | src/common/qtservice/qtservice_win.cpp:557-862 | without new controls every run comes to rest within that bound |
| ServiceHandshake.NoDeadlock | src/common/qtservice/qtservice_win.cpp:590-668 | while the event loop runs it rests only when every handler has returned and every event is handled |
| Framing.IndexOf | src/common/qtservice/qtservice_unix.cpp:366-366 | the first occurrence of the delimiter, or none |
| Framing.SplitAppend | src/service/qvpnclientconnection.cpp:64-69 | cutting a stream that arrives in two parts, even inside a delimiter, gives the pieces of the whole stream |
| Framing.SplitConserves | src/service/qvpnclientconnection.cpp:64-69 | nothing is lost or invented: pieces, delimiters and rest make up the stream |
| Framing.SplitJoin | src/service/qvpnclientconnection.cpp:64-69 | cutting what was joined gives it back |
| TextCodec.DecodePlain | src/common/qtservice/qtservice_unix.cpp:320-320 | decoding a chunk is the identity on the bytes 1..127 |
| TextCodec.NulEndsChunk | src/common/qtservice/qtservice_unix.cpp:320-320 | what stands behind a NUL byte in a chunk is lost |
| TextCodec.DecodeChars | src/common/qtservice/qtservice_unix.cpp:320-320 | no chunk is decoded to more than its bytes can hold, or to a NUL, and ASCII bytes give ASCII text |
| TextCodec.PlainChunks | src/common/qtservice/qtservice_unix.cpp:320-320 | bytes 1..127 become the same text however they are cut |
| TextCodec.Latin1Weight | src/common/qtservice/qtservice_unix.cpp:100-100 | a text needs at least as many bytes to be read as toLatin1 writes for it, and if those are enough they are all ASCII |
| TextEncoding.Utf8IsUtf8 | src/common/qtservice/qtservice_unix.cpp:320-320 | a character is encoded with its bits in groups of six, in as few bytes as possible (section 3 of RFC 3629) |
| TextEncoding.FirstCharMeaning | src/common/qtservice/qtservice_unix.cpp:320-320 | for any bytes, what is read first is the character whose encoding stands there; where no encoding stands, one byte becomes a replacement character |
| TextEncoding.TextSurvives | src/service/openvpnmanager.cpp:365-365 | a text written as UTF-8 is read as it was if and only if it has no NUL and does not begin with a byte order mark |
| TextEncoding.Latin1Units | src/common/qtservice/qtservice_unix.cpp:100-100 | toLatin1 writes one byte for each UTF-16 unit: the unit, or '?' where it has no Latin-1 code |
| ServiceSocket.FeedConserves | src/common/qtservice/qtservice_unix.cpp:317-373 | for every cache and every chunking of the decoded text the executed commands and the non-empty ones still cached are the non-empty commands of the whole, in order |
| ServiceSocket.ExecutesPieces | src/common/qtservice/qtservice_unix.cpp:317-373 | for every chunking of the decoded text the executed commands are its pieces if and only if no piece is empty |
| ServiceSocket.EmptyCommandStalls | src/common/qtservice/qtservice_unix.cpp:321-322 | behind an empty command the same text has different effects in one chunk and in two |
| ServiceSocket.QtServiceSysPrivate.GetCommand | src/common/qtservice/qtservice_unix.cpp:364-373 | the text before the first "\r\n" is taken out of the socket's cache, or nothing is |
| ServiceSocket.QtServiceSysPrivate.SlotReady | src/common/qtservice/qtservice_unix.cpp:317-356 | for any bytes only that socket's cache and exchanges change, to those of its chunks so far, each decoded by itself, with one reply for each command |
| ServiceSocket.QtServiceSysPrivate.ExecuteCommands | src/common/qtservice/qtservice_unix.cpp:321-355 | the loop executes and answers what can be drained from the cache |
| ServiceSocket.QtServiceSysPrivate.Answer | src/common/qtservice/qtservice_unix.cpp:323-351 | which commands are answered with true, given the service flags |
| ServiceClients.PlainBytesExecute | src/common/qtservice/qtservice_unix.cpp:317-373 | for every chunking of bytes 1..127 the executed commands are the pieces of the stream if and only if no piece is empty |
| ServiceClients.TextsExecute | src/common/qtservice/qtservice_unix.cpp:317-373 | for texts in UTF-8 cut between characters the executed commands are the pieces of the text if and only if no piece is empty |
| ServiceClients.CommandAnswered | src/common/qtservice/qtservice_unix.cpp:323-351 | however its bytes are cut, one command gets one answer: true for alive and num:, for terminate unless the service cannot be stopped, for pause and resume if it can be suspended, and false for everything else |
| ServiceClients.BytesExecute | src/common/qtservice/qtservice_unix.cpp:317-373 | for every chunking of any bytes whose unfinished tail is ASCII without NUL they are the pieces of the bytes if and only if each is ASCII without NUL and not empty |
| ServiceClients.ExecutedWeight | src/common/qtservice/qtservice_unix.cpp:317-373 | whatever the bytes, the commands executed are non-empty pieces without NUL that weigh no more than the bytes received |
| ServiceClients.CommandsArrive | src/common/qtservice/qtservice_unix.cpp:94-100 | for every chunking the commands executed are those that sendCmd wrote if and only if each is ASCII without NUL, not empty, and without a "\r\n" in it |
| ServiceClients.CommandArrives | src/common/qtservice/qtservice_unix.cpp:94-100 | the same for the one command of a connection |
| ServiceClients.SplitCharacter | src/common/qtservice/qtservice_unix.cpp:320-320 | a character cut by a chunk border becomes another command |
| ServiceClients.NulCut | src/common/qtservice/qtservice_unix.cpp:320-320 | behind a NUL byte it matters where the chunk ends |
| ServiceClients.NulInTail | src/common/qtservice/qtservice_unix.cpp:320-320 | an unfinished text with a NUL can make up a command across a chunk border |
| ServiceLeftover.ReusedSocket | src/common/qtservice/qtservice_unix.cpp:358-362 | a connection executes, from whatever cache it finds, what its chunks add to the commands of the connections before it |
| ServiceLeftover.LeftoverFirst | src/common/qtservice/qtservice_unix.cpp:358-362 | executed or waiting are first the commands stalled in the leftover and then the new stream behind its unfinished text |
| ServiceLeftover.LeftoverChangesCommands | src/common/qtservice/qtservice_unix.cpp:358-362 | for every leftover and stream the pieces of the two together are those of the stream if and only if nothing is left over or nothing complete is there |
| ServiceLeftover.StalledCommand | src/common/qtservice/qtservice_unix.cpp:358-362 | a command that stalled behind an empty one is executed by the next connection, even if that sends nothing complete |
| ServiceLeftover.LeftoverHarmless | src/common/qtservice/qtservice_unix.cpp:358-362 | whatever one-line commands a connection sends, and however their bytes are cut into non-empty chunks, those are the ones executed, if and only if the cache it finds is empty |
| ServiceLeftover.OneCommandHarmless | src/common/qtservice/qtservice_unix.cpp:94-100 | the same for connections that send one command each, as sendCmd does |
| ServiceLeftover.EmptyCacheOnly | src/common/qtservice/qtservice_unix.cpp:358-362 | a leftover changes nothing for any later bytes in any non-empty chunks if and only if it is empty |
| ClientConnection.QVPNClientConnection.SocketReadyRead | src/service/qvpnclientconnection.cpp:60-69 | commands and buffer are those of the whole stream received, whatever its chunks; no newline stays in the buffer |
| ClientConnection.CommandsArrive | src/application/vpnservicemanager.cpp:103-108 | any sequence of newline-free texts arrives as that many commands, in order, with nothing left over |
| ClientConnection.JsonArrives | src/application/vpnservicemanager.cpp:103-108 | every text arrives as the bytes the parser expects if and only if all of them are ASCII |
| LogReader.OpenvpnManager.constructor | src/service/openvpnmanager.cpp:697-702 | reading starts at the beginning of whatever the file holds |
| LogReader.OpenvpnManager.OpenvpnLogfileChanged | src/service/openvpnmanager.cpp:346-372 | over any run of appends and notifications the bytes read are those of the file up to the position, if and only if none were appended between read and size; at most one byte stays unread |
| LogReader.OpenvpnManager.ReadLog | src/service/openvpnmanager.cpp:354-363 | what is read; a file that was replaced is read from its start exactly when the position lies beyond its end |
| LogReader.OpenvpnManager.ParseLines | src/service/openvpnmanager.cpp:365-368 | the bytes read become text, and its non-empty lines go to the parser in order |
| LogReader.LinesBorder | src/service/openvpnmanager.cpp:364-369 | two reads hand over the lines of their text, or one more when a line runs across the border |
| LogReader.LinesOfRun | src/service/openvpnmanager.cpp:346-372 | over a whole run the lines are those of the text read if and only if no read started inside a line; each that did adds one |
| LogReader.PlainLines | src/service/openvpnmanager.cpp:346-372 | for a log that is ASCII without NUL they are the lines of the file's bytes under the same condition |
| LogReader.TextLines | src/service/openvpnmanager.cpp:346-372 | for a log in UTF-8 without NUL, read between characters and not at a byte order mark, the lines are those of its text under the same condition |
| PortNames.NumberReadsBack | src/application/server.cpp:182-182 | every 32-bit number survives being printed and parsed |
| PortNames.NameReadsBack | src/application/protocol.cpp:49-54 | from a printed port name both readers recover the protocol, and the number |
| PortNames.NamesDiffer | src/application/protocol.cpp:49-60 | ports have the same name exactly when they are equal |
| PortNames.ShownText | src/application/protocol.cpp:49-54 | how a TCP and a UDP port are shown |
| Catalogue.PublishedOnce | src/application/serversmodel.cpp:120-176 | the list of an encryption holds exactly the ports some server offers, each once |
| Catalogue.PublishedInOrder | src/application/serversmodel.cpp:135-176 | the ports stand in the list in the order of their first appearance, server by server, TCP before UDP, in the order of the JSON lists |
| Catalogue.OfferedUnderName | src/application/serversmodel.cpp:131-138 | a port is offered for an encryption exactly when it stands in the JSON list of that encryption's name |
| Catalogue.ReadPorts | src/application/serversmodel.cpp:145-153 | the loop over one JSON list adds its new ports in order and keeps all numbers for the server |
| Catalogue.ReadServer | src/application/serversmodel.cpp:123-182 | a server object holds what its JSON entry offers for each encryption, and its ports join the lists |
| Catalogue.ServersModel.AppendServers | src/application/serversmodel.cpp:116-201 | old and new servers in dictionary order of their names, ids equal to positions, old ports kept, but only the ports of the new servers published |
| Catalogue.ServersModel.UpdateServers | src/application/serversmodel.cpp:109-114 | the list becomes a rearrangement of the input in dictionary order of the names, ids equal to positions, all its ports published |
| Catalogue.ServersModel.ServersForEncryption | src/application/serversmodel.cpp:222-236 | exactly the positions of the servers with a port for the encryption, increasing |
| Catalogue.LessIsBefore | src/application/serversmodel.cpp:184-187 | one name is less than another exactly when, at the first position where they differ, it ends or has the smaller character |
| Catalogue.NameOrder | src/application/serversmodel.cpp:184-187 | the comparison of names is an ordering as std::sort demands it |
| Catalogue.AServer.SupportedPorts | src/application/server.cpp:167-197 | one entry for each name of the list, telling whether the server has the port that name is parsed as |
| Catalogue.ShownOnce | src/application/serversmodel.cpp:190-198 | every port a server offers is shown at exactly one index |
| Catalogue.SupportedExactly | src/application/server.cpp:167-197 | the i-th entry is enabled exactly when the server offers the i-th port; for an encryption that does not exist nothing is |
| Catalogue.SentAsShown | src/application/setting.cpp:768-784 | portNumber and tcpOrUdp give the port the entry was printed from, and 80 and a failed bounds check outside the list |
| Catalogue.SupportsSome | src/application/server.cpp:146-152 | a server supports an encryption exactly when it offers a port for it |
| Catalogue.HubsReplacePorts | src/application/authmanager.cpp:1579-1583 | after the hub list has arrived each port is shown if and only if a hub offers it; so all ports of the servers are shown if and only if the hubs offer all of them |
| Settings.Setting.constructor | src/application/setting.cpp:577-583 | with nothing stored the encryption, port and server index are 0, hubs are shown, and no server has settings of its own |
| Settings.Setting.SetEncryptionPorts | src/application/setting.cpp:648-662 | the lists of that encryption are replaced, the others stay |
| Settings.Setting.DetermineNextPort | src/application/setting.cpp:1022-1031 | the next index of the current encryption's list, or 0 behind its end |
| Settings.Setting.SwitchToNextPort | src/application/setting.cpp:1033-1037 | the current protocol becomes that index |
| Settings.Setting.SwitchToNextNode | src/application/setting.cpp:1039-1049 | the current server becomes the one behind it in the list; the last one, and one not in the list, stay |
| Settings.IndexIn | src/application/setting.cpp:1046-1046 | the first index of the server, or -1 |
| Sorting.Sort | src/application/authmanager.cpp:1335-1335 | an ordered rearrangement; nothing is said about the order of equal elements |
| Jump.AuthManager.Candidates | src/application/authmanager.cpp:1299-1322 | exactly the other servers with the current encryption, or the other hubs |
| Jump.AuthManager.GetPings | src/application/authmanager.cpp:1262-1280 | the ping of each candidate, -1 where there is none |
| Jump.AuthManager.PickBest | src/application/authmanager.cpp:1334-1341 | the one drawn has a known ping and stands, sorted by ping, at the place that the draw gives modulo 20 (6 for hubs) or the number of known pings: not more candidates are better, and more than that are at least as good |
| Jump.AuthManager.FewBetter | src/application/authmanager.cpp:1335-1340 | in the sorted list at most as many candidates are strictly better as stand before |
| Jump.AuthManager.GetServerToJump | src/application/authmanager.cpp:1289-1363 | for every draw: a valid index, another server or hub whenever there is one to go to, and the one at the drawn place among the known pings when one is known; -1 without servers, 0 without hubs |
| Jump.AuthManager.DoJump | src/application/authmanager.cpp:1365-1374 | the index chosen becomes the current one exactly when it is the index of a server, and the connect command then goes to the server or hub that was chosen |
| PortLoop.VPNServiceManager.ServerAddress | src/application/setting.cpp:933-940 | the address of the server with this index, or of the hub when hubs are shown; none when there is no such entry |
| PortLoop.VPNServiceManager.SendConnectToVPNRequest | src/application/vpnservicemanager.cpp:232-243 | one request is sent, to the entry of the shown list with the current index, with the encryption and port index stored for that server or else the current ones; an index without an entry dereferences a null pointer |
| PortLoop.VPNServiceManager.TryNextPort | src/application/vpnservicemanager.cpp:534-541 | the next port or the next server, and a request for it |
| PortLoop.VPNServiceManager.NotifyStatusChange | src/application/vpnservicemanager.cpp:336-351 | Connected ends the loop |
| PortLoop.VPNServiceManager.NotifyTimeout | src/application/vpnservicemanager.cpp:372-383 | in the loop the next request, otherwise one question to the user |
| PortLoop.VPNServiceManager.StartPortLoop | src/application/vpnservicemanager.cpp:411-417 | the loop starts with the next port or server |
| PortLoop.EachPortOnce | src/application/setting.cpp:1022-1037 | any n requests in a row ask for each of the n ports exactly once, if and only if the index to start from is at least -1 |
| PortLoop.RequestCarries | src/application/setting.cpp:738-761 | every request of a loop carries the current encryption and the port index whose turn it is; an encryption stored for the server, and a port index stored for the server and that encryption, each replace exactly their own field |
| PortLoop.AsksInTurn | src/application/vpnservicemanager.cpp:534-541 | for a server without settings of its own, request t of a port loop asks for the port t places behind the next one, around the list |
| PortLoop.EachPortAskedOnce | src/application/vpnservicemanager.cpp:372-417 | and of any n such requests in a row exactly one asks for each of the n ports |
| PortLoop.NodesInOrder | src/application/setting.cpp:1039-1049 | walking the servers follows the list and stays at its last server |
| PortLoop.PortLoopWalks | src/application/vpnservicemanager.cpp:372-417 | from the user's answer until the connection, the k-th timeout sends the request for the k-th port index or for the index of the k-th server, whatever else arrives |
| PortLoop.RequestReachesServer | src/application/vpnservicemanager.cpp:232-243 | one request of a loop goes to the server the settings then name if and only if servers are shown or the hub with its index is the same machine; without such a hub it is a null dereference |
| PortLoop.LoopReachesServers | src/application/authmanager.cpp:212-230 | over a whole loop of any length, with any status changes in it, every request reaches its server if and only if servers are shown or the two lists agree at every index visited |
| PortLoop.LoopMeetsNull | src/application/authmanager.cpp:212-230 | some request of the loop dereferences null if and only if hubs are shown and there are too few for one of these indices |
| PortLoop.PortLoopReachesServer | src/application/vpnservicemanager.cpp:534-541 | a loop through the ports reaches the server at every request if and only if servers are shown or the two lists agree at the current index |
| PortLoop.ServerLoopReachesServers | src/application/vpnservicemanager.cpp:534-541 | a loop along the servers, with timeouts enough to reach the end of the list, does if and only if they agree at every index behind the current one |
| PortLoop.AsksExactly | src/application/vpnservicemanager.cpp:372-383 | the user is asked exactly at a timeout with every started loop ended by a connection and every earlier question answered |
| PortLoop.BetweenTwoQuestions | src/application/vpnservicemanager.cpp:336-383 | between two questions there is an answer and after it a connection |

## Left out

- The user interface, translations, process launching, registry, network configuration, HTTP, DNS and the sockets themselves: their results are parameters.
- JSON parsing: the catalogue starts from parsed values, and a port is the int that toInt gives.
- A process is taken to have one lock instance for a file, as src/application/qtlockedfile.cpp:59-61 asks, and not to close the file while it is locked. Apart from LockFaults, `OpenMutex` is taken to succeed exactly when the object exists.
- The names of the mutexes: two files whose names differ only in a trailing number can share one ("x" with slot 1 and "x1"); one file is modelled.
- `listen` in isClient, whose result does not change what isClient returns.
- ServiceClients.BytesExecute: does not say which commands a stream gives whose unfinished tail has a NUL or a character beyond ASCII; `NulInTail` shows that there the pieces do not decide it.
- The fcntl lock of Unix, where the kernel does the work.
- The random mixing of STUN request ids.
- The Windows service after its event loop has ended, and nested event loops inside a callback; the mutex region around wakeAll is one step.
- Console mode of the service: start() is followed only up to where the dispatcher failure ends it.
- LogReader.OpenvpnManager.OpenvpnLogfileChanged: does not model what the parser makes of a line, beyond the error flag it may set.
- TextCodec.Decode: follows the conversion of Qt 5 (UTF-8 up to the first NUL byte, a leading byte order mark skipped, a replacement character for each byte that begins no character); texts with unpaired surrogates are not part of this model.
- The OpenVPN connection lifecycle, whose asynchronous replies keep no global invariant.
- The GUI's splitting of notifications, which keeps no buffer.
- PortNames.ToInt: does not model white space around the number, which the printed names never have.
- Case folding covers ASCII letters, all that the compared literals contain; names are compared by code point, which differs from QString's comparison of UTF-16 units only where a character beyond U+FFFF meets one from U+E000 on.
- Flags, ISO codes, load and favourites of a server, and the levels shown in the server list.
- PortLoop.VPNServiceManager.SendConnectToVPNRequest: does not model a local socket that cannot be opened; the request then is not sent, and the loop goes on in the same way.
- The kill switch signal, which reacts to Disconnected and changes nothing in the loop.
- The hub ping queue, PortForwarder and delete_startup.
