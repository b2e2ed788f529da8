# xibridge: a verified model

This project models the four hardest parts of xibridge, a client and server library that carries
commands over TCP to devices on serial ports, and proves what they are for.

* **The server's device table** (`RwLock.dfy`, `RwLockRuns.dfy`, `DeviceTable.dfy`, `DeviceRuns.dfy`,
  `DeviceWriters.dfy`, `DeviceProgress.dfy`, `DeviceTermination.dfy`, `DeviceRefCount.dfy`,
  `DeviceConnections.dfy`, `DeviceOpenings.dfy`, `DeviceMap.dfy`, `DeviceSolo.dfy`, `ForcedRemoval.dfy`,
  `AnswersAtOnce.dfy`). Device handles are shared by the threads of many connections. The write-preferring
  read-write lock is modelled with its four 32-bit counters, its sleepers, its notifications and spurious wakeups; the table is a transition system with one program
  counter per thread, in which every lock operation, container operation and device operation is one
  step, running on two such locks and one mutex per device. Handles are never used after they are
  destroyed, a device has at most one, every run can be continued until all
  calls have returned, no wakeup is lost, and in disciplined
  runs a device is open exactly while a connection is registered for it, unless its removal was forced.
  The same operations are also given as a class, in the form of the source, and the two models are proved to agree.
* **The wire codec** (`Bytes.dfy`, `MBuf.dfy`, `DevIds.dfy`, `Protocol3.dfy`, `Protocol3Laws.dfy`,
  `Protocol12.dfy`, `Schema.dfy`, `PacketSchemas.dfy`, `StatusPackets.dfy`). The bounded buffer with its one-byte failure
  counter, the builders and decoders of the three protocol versions, and the small language of packet
  schemas with its generator and its matcher. Builders and decoders work on the buffer field by field;
  they are proved against packet layouts and against closed descriptions of the byte strings that are
  accepted, and these against each other.
* **Enumeration and negotiation** (`Scanf.dfy`, `Uri.dfy`, `EnumPipeline.dfy`, `Negotiation.dfy`, `ConnRegistry.dfy`,
  `ServerAnswers.dfy`, `Client.dfy`). A device list is encoded, decoded, printed as URIs, taken apart and parsed; the client
  tries protocol versions against an arbitrary network, and keeps a registry of connections that is
  described over whole runs of calls. What the calls come to is proved against servers that are described by
  the bytes they send.
* **The checksum of serial frames** (`Crc.dfy`, `CrcErrors.dfy`, `CrcOrder.dfy`): the CRC-16 of section 6.2.2 of "MODBUS over Serial Line
  Specification and Implementation Guide V1.02", against the bit-wise shift register, with its residue
  and its error-detection properties for messages of any length.

Results about the code that its documentation does not say, or says differently:

* A forced removal closes the device but leaves the registrations of the other connections, although
  `server/mapdevidphnd.h:115-116` announces that all associated connections are removed
  (`DeviceMaps.ForcedRemovalIff`, `DeviceMaps.ForcedRemovalLeavesConnections`).
* An opening can answer true although its device is not open, in two ways. A connection that is registered
  is answered at once, whatever device it asks for: it can ask for another device, with no removal ever
  forced (`AnswersAtOnce.AnsweredForAnotherDevice`), or again for its own after a forced removal
  (`AnswersAtOnce.AnsweredAfterForcedRemoval`). And one that looks the device up takes the null placeholder
  of a late request for an open device (`ForcedRemovals.OpeningAnswersWithoutDevice`).
  `DeviceOpenings.AnswerMeansOpenIff`, `DeviceOpenings.TrueAnswerMeansOpen` and `DeviceOpenings.OpenIffStored`
  say exactly when a true answer does mean an open device.
* `DevId::operator<` is not an order on all ids (`DevIds.OrderFails`); `DevIds.OrdersKeysIff` says on which
  sets it is. The table model uses ids of one family, where it is (`DevIds.FamilyOrdersKeys`).
* The failure counter of `MBuf` is one byte wide, so that 256 failures look like none
  (`MBufs.FlagWrapsAround`). An enumeration response that announces 64 devices and contains none is
  accepted (`Protocol3Laws.EmptyEnumAccepted`), and so is one that has no room for the number
  (`Protocol3Laws.ShortEnumAccepted`); with fewer than 64 the check is exact
  (`Protocol3Laws.SmallEnumIsChecked`).
* The decoders of status responses accept a packet that is eight bytes too short, because a failed skip
  is not checked (`StatusPackets.StatusAcceptedIff`); such a packet can be taken for a positive answer
  (`StatusPackets.CutAnswerAccepted`).
* The URI parser keeps 16 of the 32 bits of `reserve` (`Uris.UriRoundTripIff`,
  `EnumPipeline.EnumerationIsExactIff`), ignores what follows the last digit
  (`Uris.PlainIdAcceptedIff`), and takes signs, `0x` prefixes and white space inside an id
  (`Uris.SignsPrefixesSpaces`).
* A server that speaks only version 2 is found when a device is opened, but never when devices are
  enumerated (`Negotiations.NegotiationSucceeds`, `Negotiations.EnumerationSucceedsIff`).

## Model

| member | source | states |
|---|---|---|
| RwLocks.StepKeepsInv | server/rw_lock.h:15-51 | every critical section, and every spurious wakeup, keeps the counters equal to the numbers of readers, writers and waiters, keeps writers exclusive, and loses no wakeup |
| RwLockRuns.RunKeepsInv | server/rw_lock.h:15-51 | the same in every state of every run, for any number of threads that a 32-bit counter can count |
| RwLockRuns.MutualExclusion | server/rw_lock.h:15-51 | while a thread writes, no other thread writes or reads |
| RwLockRuns.WritePreference | server/rw_lock.h:17-19 | while writers wait and until one acquires, the set of readers only shrinks, over runs of any length |
| RwLockRuns.SomeWaiterCanAcquire | server/rw_lock.h:26-51 | if the lock is free and somebody waits, some woken thread acquires it at its next re-check |
| RwLockRuns.StepRefines | server/rw_lock.h:15-51 | a step of the counting lock is a step of the textbook read-write lock or leaves it alone |
| RwLockRuns.RunRefines | server/rw_lock.h:15-51 | a run of the counting lock is a run of the textbook lock |
| RwLocks.ReadWriteLock.constructor | server/rw_lock.h:10-13 | a new lock has zero counters |
| RwLocks.ReadWriteLock.EnterRead | server/rw_lock.h:15-24 | the first critical section of `read_lock`: acquires, or goes to sleep as a waiting reader |
| RwLocks.ReadWriteLock.RecheckRead | server/rw_lock.h:19-23 | a woken reader acquires or sleeps again |
| RwLocks.ReadWriteLock.LeaveRead | server/rw_lock.h:26-31 | releases and wakes one waiting writer |
| RwLocks.ReadWriteLock.EnterWrite | server/rw_lock.h:33-42 | the first critical section of `write_lock` |
| RwLocks.ReadWriteLock.RecheckWrite | server/rw_lock.h:37-41 | a woken writer acquires or sleeps again |
| RwLocks.ReadWriteLock.LeaveWrite | server/rw_lock.h:44-51 | releases and wakes one waiting writer, or all waiting readers if no writer waits |
| RwLocks.ReadWriteLock.IsWriteLockRequested | server/rw_lock.h:53-57 | true exactly when some thread writes or waits to write |
| DeviceRuns.RunKeepsInv | server/mapdevidphnd.cpp:111-334 | in every state of every interleaving the two locks are sound, device mutexes have one owner, and table and live handles agree up to what the owner is doing |
| DeviceRuns.OneLiveHandlePerDevice | server/mapdevidphnd.cpp:172-217 | a device never has two live handles |
| DeviceRuns.LiveHandlesAreStored | server/mapdevidphnd.cpp:172-280 | a live handle is in its device's entry, or its creator still owns the device mutex and the entry is the null placeholder |
| DeviceRuns.HandlesInUseAreLive | server/mapdevidphnd.cpp:31-67 | the handle that a thread talks to or destroys is live and belongs to the thread's device |
| DeviceRuns.NoUseAfterDestroy | server/mapdevidphnd.cpp:59-67 | a destroyed handle stays destroyed and is never used again by any thread |
| DeviceRuns.DeviceMutexExcludes | server/mapdevidphnd.cpp:111-143 | two threads never work on one device at once |
| DeviceRuns.TableLockExcludes | server/mapdevidphnd.cpp:172-280 | while one thread holds the exclusive table lock to write table or connection list, no other is inside a section of that lock |
| DeviceWriters.WritersHoldTheLock | server/mapdevidphnd.cpp:172-334 | every step that changes an entry or the list is made under the exclusive table lock, but for two that change only the entry of the device whose mutex the thread owns |
| DeviceProgress.LocksAreTakenLast | server/mapdevidphnd.cpp:111-143 | in every reachable state no thread is in, or waits for, both read-write locks, and a thread that waits for a device mutex is outside of both and owns no mutex |
| DeviceProgress.NoDeadlock | server/mapdevidphnd.cpp:111-334 | in every reachable state with an unfinished call some thread can advance, other than by a spurious wakeup |
| DeviceTermination.AdvancingLowersLoad | server/mapdevidphnd.cpp:111-334 | every step that advances a call lowers a weight summed over all threads |
| DeviceTermination.AdvancingEnds | server/mapdevidphnd.cpp:111-334 | so no interleaving of advancing steps is longer than the weight of the state it begins in |
| DeviceTermination.EveryRunCanFinish | server/mapdevidphnd.cpp:111-334 | every run can be continued, from any of its states, until all calls have returned |
| DeviceConnections.DisciplinedRunKeepsInv | server/mapdevidphnd.cpp:172-334 | the counting invariant of runs whose connections make their calls in turn, send to devices they are registered for, and close their own device |
| DeviceConnections.OpenDeviceHasConnection | server/mapdevidphnd.cpp:219-280 | in such runs, when nobody works on a device and it is open, some connection is registered for it, forced removals or not |
| DeviceConnections.RegisteredDeviceIsOpen | server/mapdevidphnd.cpp:172-280 | at any moment, whoever works on it, a device that some connection is registered for is open, unless a removal of that device was forced |
| DeviceConnections.OpenIffConnected | server/mapdevidphnd.cpp:172-280 | and while nobody works on it, it is open if and only if some connection is registered for it, whatever was forced on other devices |
| DeviceConnections.OpenAnswersRight | server/mapdevidphnd.cpp:172-217 | an opening answers true exactly when its connection is registered at that point; if it looked the device up, for that device, which is then open unless its removal was forced; if it is answered at once, for whatever device; a connection is registered for at most one |
| DeviceOpenings.AnswerMeansOpenIff | server/mapdevidphnd.cpp:175-217 | in every run, from the lookup to the answer of one call: the device is open at the answer if and only if the answer is true and the lookup did not meet the null placeholder; if it did, the answer is always true |
| DeviceOpenings.UnforcedAnswerMeansOpen | server/mapdevidphnd.cpp:175-217 | so in disciplined runs the answer is true if and only if the device is open, unless a forced removal of that device had begun before the lookup |
| DeviceOpenings.TrueAnswerMeansOpen | server/mapdevidphnd.cpp:172-217 | every true answer for a device that was not removed by force: the device is open if the answering connection, or any other, is registered for it, and, while nobody works on it, only then |
| DeviceOpenings.OpenIffStored | server/mapdevidphnd.cpp:172-280 | in every run, forced removals or not: while nobody works on a device, it is open if and only if its entry holds a handle |
| AnswersAtOnce.AnsweredForAnotherDevice | server/mapdevidphnd.cpp:174 | a run without forced removals in which a connection that has opened one device opens another, which is not open, and is answered true |
| AnswersAtOnce.AnsweredAfterForcedRemoval | server/mapdevidphnd.cpp:174 | a run in which a connection that stayed registered for a device removed by force opens it again, and is answered true though it is closed |
| ForcedRemovals.OpeningAnswersWithoutDevice | server/mapdevidphnd.cpp:309-334 | a late request leaves the null placeholder, an opening meets it, answers true and its device is not open |
| DeviceConnections.DisciplinedRunIsRun | server/mapdevidphnd.cpp:172-334 | such runs are runs of the table, so all results above hold for them |
| DeviceMaps.MapDevIdPHandle.LockCreateDeviceMutex | server/mapdevidphnd.cpp:111-129 | takes the device's mutex, created on first use, and leaves the pool lock free |
| DeviceMaps.MapDevIdPHandle.UnlockDeviceMutex | server/mapdevidphnd.cpp:131-143 | gives the mutex back and leaves the pool lock free |
| DeviceMaps.MapDevIdPHandle.IsActualConnection | server/mapdevidphnd.cpp:145-170 | whether a connection is registered, and for which device; device 0 for an unknown one |
| DeviceMaps.MapDevIdPHandle.OpenIfNot | server/mapdevidphnd.cpp:172-217 | the table, the list and the answer after an opening, with all locks free on every path and table and live handles in agreement |
| DeviceMaps.MapDevIdPHandle.CreateUnlocked | server/mapdevidphnd.cpp:189-210 | creating a device outside the table lock, behind a null placeholder, adds exactly its entry and its registration, or nothing |
| DeviceMaps.MapDevIdPHandle.DestroyDeviceH | server/mapdevidphnd.cpp:59-67 | destroys only a handle that exists |
| DeviceMaps.MapDevIdPHandle.RemoveConnOrRemoveDevice | server/mapdevidphnd.cpp:219-280 | the table and the list after a removal, forced or not, with all locks free on every path |
| DeviceMaps.MapDevIdPHandle.CloseUnused | server/mapdevidphnd.cpp:241-278 | the device is closed exactly when forced or when no registration for it is left |
| DeviceMaps.MapDevIdPHandle.OperationSendRequest | server/mapdevidphnd.cpp:309-334 | a request returns what the device behind the stored handle answers, where every handle has an answer of its own, or "no device" without a handle; then, and only then, the device is removed by force |
| DeviceMaps.ForcedRemovalIff | server/mapdevidphnd.cpp:219-280 | after a forced removal the device is closed, and no registration for it is left if and only if it had none but the one taken back |
| DeviceMaps.ForcedRemovalLeavesConnections | server/mapdevidphnd.cpp:323-327 | two connections that share a device which is no longer there both stay registered for it |
| DeviceMaps.AnswerWithoutDeviceIff | server/mapdevidphnd.cpp:172-217 | for a call that meets no other: the answer is true and no handle is stored if and only if none was stored before and the connection was registered or the entry was the null placeholder |
| DeviceMaps.ReopeningRemovedDevice | server/mapdevidphnd.cpp:172-334 | a connection still registered for a device that was removed by force is told that it is open |
| DeviceMaps.CloseUndoesOpen | server/mapdevidphnd.cpp:172-280 | closing a connection by its id undoes its opening, of table and list |
| DeviceSolo.ActKeepsRest | server/mapdevidphnd.cpp:172-334 | at every program counter, the outcome of the rest of the call is what it was one operation earlier |
| DeviceSolo.ActKeepsSuccess | server/mapdevidphnd.cpp:172-334 | the same for the call's answer |
| DeviceSolo.SoloRun | server/mapdevidphnd.cpp:172-334 | a thread that runs alone finishes its call with the predicted outcome and answer |
| DeviceSolo.SoloCallMatchesClass | server/mapdevidphnd.cpp:172-334 | in the step machine, a call that meets no other has exactly the effect and the answer of the method of the class, and the live handles afterwards are those in the table |
| Bytes.BeRoundTrip | common/utils.cpp:4-48 | a big-endian number reads back as written, cut to its width |
| Bytes.LeRoundTrip | common/utils.cpp:4-48 | the same in little-endian order |
| Bytes.BeOfValue | common/utils.cpp:4-48 | bytes that were read are written back unchanged |
| MBufs.BufferSafety | common/utils.cpp:145-338 | over any sequence of reads, writes and seeks the cursor stays inside the buffer, bytes outside successful writes keep their values, and the number of failures is the number of operations that did not fit |
| MBufs.BrokenFlag | common/utils.h:282-283 | exactly when `wasBroken` tells the truth: not after a positive multiple of 256 failures |
| MBufs.FlagWrapsAround | common/utils.h:300 | the witness: 256 failed reads look like none |
| MBufs.MBuf.Of | common/utils.cpp:126-134 | a buffer over given bytes starts at their beginning |
| MBufs.MBuf.Zeroed | common/utils.cpp:136-143 | a buffer for writing is filled with zeros |
| MBufs.MBuf.Read | common/utils.cpp:145-153 | reading a number moves the cursor and gives its value, or fails and changes neither cursor nor target |
| MBufs.MBuf.GetStream | common/utils.cpp:4-27 | the shifting loop computes the number in the byte order asked for |
| MBufs.MBuf.Write | common/utils.cpp:155-166 | writing a number writes its bytes, or fails; nothing happens on a read-only buffer |
| MBufs.MBuf.PutStream | common/utils.cpp:29-48 | the shifting loop writes the bytes in the byte order asked for and touches no other byte |
| MBufs.MBuf.MemWrite | common/utils.cpp:262-272 | writes all bytes or none and returns how many |
| MBufs.MBuf.AppendBuffer | common/utils.cpp:237-248 | appends another buffer, ignoring the read-only flag |
| MBufs.MBuf.MSeek | common/utils.cpp:318-324 | moves by an offset inside the buffer or fails; answers whether something has failed |
| MBufs.MBuf.TotalSeek | common/utils.cpp:326-331 | moves to a position below the length or fails; answers whether nothing has failed |
| MBufs.MBuf.ToVector | common/utils.cpp:340-351 | everything before the cursor; of an unread read-only buffer everything |
| DevIds.OrderFails | common/protocols.h:53-59 | two ids that each come before the other |
| DevIds.OrdersKeysIff | common/protocols.h:38-59 | exactly which sets of ids `operator<` orders strictly and totally, in agreement with `operator==`: any two ids are ordered the same way by all three fields, and no two differ only in `reserve` |
| DevIds.FamilyOrdersKeys | common/protocols.h:38-59 | ids that differ in nothing but their serial number are such a set, ordered by it |
| DevIds.IdAtIs | common/utils.cpp:94-116 | an id is read back as written |
| DevIds.IdBytesOf | common/utils.cpp:94-116 | the 12 bytes that were read are written back |
| DevIds.WriteDevId | common/utils.cpp:106-116 | an id is written as four big-endian fields |
| DevIds.ReadDevId | common/utils.cpp:94-104 | an id is read as four fields, each of which may fail on its own |
| DevIds.KnownId | common/utils.cpp:94-116 | byte for byte: the 12 bytes of one id, so that the order of its fields on the wire is fixed |
| Protocol3s.Protocol3.CreateClientRequest | common/protocols.cpp:556-578 | a request has the layout of its type; only open, close and command requests carry the device |
| Protocol3s.Protocol3.CreateCmdRequest | common/protocols.cpp:252-262 | a command carries its length, its data and the length of the answer |
| Protocol3s.Protocol3.CreateServerResponse | common/protocols.cpp:651-684 | a response has the layout of its type |
| Protocol3s.Protocol3.CreateEnumResponse | common/protocols.cpp:710-725 | an enumeration response is the number of devices followed by their records |
| Protocol3s.Protocol3.GetDataFromRequest | common/protocols.cpp:607-634 | the server accepts exactly the described byte strings and returns their fields, or the described error |
| Protocol3s.Protocol3.GetDataFromBindyCallback | common/protocols.cpp:198-226 | the client accepts exactly the described byte strings and returns their fields, or the described error |
| Protocol3s.Protocol3.GetSpecData | common/protocols.cpp:470-523 | the part of the decoder behind the header, by packet type |
| Protocol3s.Protocol3.GetRecords | common/protocols.cpp:507-513 | the record loop, also when records are missing |
| Protocol3Laws.CommandRoundTrip | common/protocols.cpp:252-262 | the server decodes a command to the device, data and answer length that the client encoded |
| Protocol3Laws.CommandsAreDistinct | common/protocols.cpp:252-262 | different commands are encoded differently |
| Protocol3Laws.CommandReencodes | common/protocols.cpp:448-459 | whatever is accepted as a command re-encodes to the same bytes, but for version, timeout and reserved words |
| Protocol3Laws.CommandAcceptedIff | common/protocols.cpp:448-459 | a byte string of command type is accepted if and only if the length word names all that stands between it and the length of the answer; the two errors |
| Protocol3Laws.OtherTypesRefused | common/protocols.cpp:607-634 | the server refuses with error 13 exactly the types that are no requests |
| Protocol3Laws.PlainRequestRoundTrip | common/protocols.cpp:556-634 | the other requests arrive with their type and device |
| Protocol3Laws.CommandResponseRoundTrip | common/protocols.cpp:474-484 | a command response arrives as the bytes sent |
| Protocol3Laws.CommandResponseAcceptedIff | common/protocols.cpp:474-484 | exactly which command responses the client accepts, and what it takes from them |
| Protocol3Laws.StatusResponseRoundTrip | common/protocols.cpp:485-502 | status responses arrive with their value, version responses with 3 |
| Protocol3Laws.ResponseFields | common/protocols.cpp:651-684 | every response carries version 3, its type, the device, and zeros in the reserved words, in their places |
| Protocol3Laws.EnumAcceptedIff | common/protocols.cpp:503-517 | an enumeration that has a header is accepted exactly when the number of operations that fail, in closed form, is a multiple of 256; of those too short for a number of records, only packets of 28 to 31 bytes can be |
| Protocol3Laws.SmallEnumIsChecked | common/protocols.cpp:503-517 | with fewer than 64 records announced, accepted if and only if all are there, and then handed on unchanged |
| Protocol3Laws.EmptyEnumAccepted | common/protocols.cpp:503-517 | 64 announced records and none contained: accepted |
| Protocol3Laws.ShortEnumAccepted | common/protocols.cpp:503-517 | a packet of 30 bytes whose first reserved word is 64: accepted, with 64 records |
| Protocol3Laws.EnumRoundTrip | common/protocols.cpp:651-725 | a device list of any length arrives as the concatenation of its records |
| Protocol12s.Protocol2.CreateClientRequest | common/protocols.cpp:542-554 | the layout of version 2 requests |
| Protocol12s.Protocol2.CreateCmdRequest | common/protocols.cpp:236-250 | a version 2 command: id, answer length without status, payload; nothing for data shorter than the id |
| Protocol12s.Protocol2.CreateServerResponse | common/protocols.cpp:636-649 | the layout of version 2 responses |
| Protocol12s.Protocol2.GetDataFromRequest | common/protocols.cpp:580-605 | what the version 2 server accepts and returns, and its errors |
| Protocol12s.Protocol2.GetDataFromBindyCallback | common/protocols.cpp:400-431 | what the version 2 client accepts and returns, and its errors |
| Protocol12s.Protocol1.CreateClientRequest | common/protocols.cpp:526-540 | the layout of version 1 requests, which `RawRequestFields` and `DeviceSees1` read back |
| Protocol12s.Protocol1.CreateCmdRequest | common/protocols.cpp:228-234 | a version 1 command is a raw packet for the serial number with the data |
| Protocol12s.RawRequestFields | common/protocols.cpp:526-540 | a version 1 command has type 0, the serial number at byte 12, all its data from byte 24 on, and nothing else |
| Protocol12s.RawRequestsAreDistinct | common/protocols.cpp:526-540 | different version 1 commands are encoded differently |
| Protocol12s.RawResponseRoundTrip | common/protocols.cpp:304-357 | the answer of a version 1 command is what stands behind the 24 bytes of the head |
| Protocol12s.Protocol1.GetDataFromBindyCallback | common/protocols.cpp:304-357 | what the version 1 client accepts and returns, and its errors |
| Protocol12s.Protocol1.GetRecords | common/protocols.cpp:340-348 | the version 1 record loop, also when records are missing |
| Protocol12s.Command2RoundTrip | common/protocols.cpp:373-390 | the server splits a command into id and payload whose concatenation is the original, and gets the answer length minus 4 modulo 2^32 |
| Protocol12s.Commands2AreDistinct | common/protocols.cpp:236-250 | different version 2 commands of at least four bytes are encoded differently |
| Protocol12s.ResponseFields2 | common/protocols.cpp:636-649 | every version 2 response carries its type, the serial number and the value in their places |
| Protocol12s.CommandResponse2RoundTrip | common/protocols.cpp:404-414 | a version 2 command response arrives as its 4-byte status followed by the payload |
| Protocol12s.StatusResponse2RoundTrip | common/protocols.cpp:415-426 | version 2 status responses arrive with their value |
| Protocol12s.PlainRequest2RoundTrip | common/protocols.cpp:390-393 | version 2 open and close requests arrive with type and serial |
| Protocol12s.Enum1AcceptedIff | common/protocols.cpp:336-352 | exactly when a version 1 enumeration is accepted; below 128 records exactly when all are there, and then with the ids of the serials found |
| Schemas.GetPlainCommandLength | common/protocols.cpp:67-94 | the length of the generated command, or -1 for a schema with fields of any length |
| Schemas.GenPlainCommand | common/protocols.cpp:96-134 | writes exactly the fields of the schema in order |
| Schemas.IsMatch | common/protocols.cpp:136-188 | the matching loop, with its shared variable and its failure counter |
| Schemas.GenerateThenMatch | common/protocols.cpp:67-188 | for every plain schema the generated command has the announced length and is accepted by the matcher exactly when its 0-or-1 fields hold 0 or 1 |
| Schemas.MatchIff | common/protocols.cpp:136-188 | for schemas of any length the matcher accepts exactly the conforming byte strings, and those on which a positive multiple of 256 reads fails and every comparison comes out right with the value last read |
| Schemas.WordMisses | common/protocols.cpp:136-188 | how many reads fail, for schemas of one-word fields: those the length of the string leaves over |
| Schemas.MatchIffConforms | common/protocols.cpp:136-188 | with fewer than 256 reads the matcher accepts exactly the byte strings that conform to the schema |
| Schemas.AcceptedIff | common/protocols.cpp:136-188 | for plain schemas: accepted if and only if long enough and equal to a generated command on every constrained field |
| Schemas.CommandField | common/protocols.cpp:96-134 | where the fields of a generated command are |
| Schemas.LongSchemaMatchesNothing | common/protocols.cpp:136-188 | the bound is needed: of the byte strings shorter than its command, the schema of 256 free fields matches exactly those of fewer than four bytes |
| PacketSchemas.GetSchema | common/protocols.cpp:56-65 | the schema of a packet type is the first entry for it |
| PacketSchemas.Requests3Fit | common/protocols.cpp:38-52 | every version 3 request that the client builds matches its schema |
| PacketSchemas.Responses3Fit | common/protocols.cpp:38-52 | every version 3 response that the server builds matches its schema |
| PacketSchemas.ShortPacketsFit | common/protocols.cpp:14-36 | the requests of versions 1 and 2 and the responses of version 2 match theirs |
| PacketSchemas.GeneratedPackets | common/protocols.cpp:96-134 | generator and builders agree: from their schemas it makes, byte for byte, the answers to open and close requests of all three versions and the errors of version 3 |
| StatusPackets.StatusAcceptedIff | common/protocols.cpp:485-502 | of all status packets of the three versions, exactly those of full length and those eight bytes shorter are accepted, with the last word as value |
| StatusPackets.AcceptedStatusFitsIff | common/protocols.cpp:14-52 | an accepted status packet matches the schema of its type if and only if it has full length and its version, reserved words, serial and value are right |
| StatusPackets.CutAnswerAccepted | common/protocols.cpp:485-502 | in every version, a packet eight bytes too short that is taken for a positive answer and fits no schema |
| Uris.ParseUriDev12 | common/xibridge_uri_parse.h:11-62 | returns 0 with scheme, host and id filled in for a URI that parses, else 1 with a zero id, also without an output structure |
| Scanfs.ScanHexIff | common/xibridge_uri_parse.h:47-48 | one conversion of `sscanf`: it takes the longest text that is or begins a number, as the C standard describes it, with sign, `0x` and white space, and fails exactly when that is no number |
| Uris.IdValue | common/xibridge_uri_parse.h:40-54 | every id of at most 24 hex digits parses to the number it spells, cut into 32, 16, 16 and 32 bits; of the top piece 16 bits are kept |
| Uris.IdAcceptedIff | common/xibridge_uri_parse.h:40-54 | of all texts, exactly those ids are accepted that, padded on the left, are four numbers as `sscanf` takes them; the id is made of their values |
| Uris.PlainIdAcceptedIff | common/xibridge_uri_parse.h:40-54 | without white space, signs and prefixes: behind the padding, the first 17 characters have to be digits |
| Uris.SignsPrefixesSpaces | common/xibridge_uri_parse.h:47-48 | a signed, a negative, a prefixed and a blank-padded id, and their values |
| Uris.IdTextParses | common/utils.cpp:402-406 | a printed id parses to the id with its `reserve` cut to 16 bits |
| Uris.UriParses | common/xibridge_uri_parse.h:11-62 | a printed URI parses to its host and its id, `reserve` cut to 16 bits |
| Uris.UriRoundTripIff | common/xibridge_uri_parse.h:50 | printing and parsing loses nothing exactly when `reserve` fits in 16 bits |
| EnumPipeline.XiNetDevUris | common/utils.cpp:395-417 | the printing loop, also when input or output run out; false exactly when a buffer counts as broken |
| EnumPipeline.PrintedLines | common/utils.cpp:395-417 | with room for them the records are printed as their URIs and nothing fails |
| EnumPipeline.ListTextIs | client/xibridge_client.cpp:198-205 | the allocated buffer never overflows, and holds the URIs of all records and a final zero |
| EnumPipeline.EnumerationText | client/xibridge_client.cpp:198-205 | what is handed out for a decoded enumeration |
| EnumPipeline.AcceptedEnumeration | client/xibridge_client.cpp:187-208 | for any bytes accepted as a version 3 enumeration the application gets as many URIs as were announced, and they parse to the decoded records |
| EnumPipeline.AcceptedEnumeration1 | client/xibridge_client.cpp:187-208 | the same for version 1; if the records are all there, which below 128 of them is what acceptance means, the URIs name exactly the serials of the reply in their order |
| EnumPipeline.EnumerationEndToEnd | common/protocols.cpp:710-725 | every device list arrives complete and in order, each `reserve` cut to 16 bits |
| EnumPipeline.EnumerationIsExactIff | common/xibridge_uri_parse.h:50 | the application gets the server's list back exactly when every `reserve` fits in 16 bits |
| Crcs.GetCrc | server/xib-serial/devserial.c:80-100 | the nested loops compute the checksum, whose polynomial and start are fixed by `CrcErrors.CheckValue` and `CrcErrors.StartInverts` |
| Crcs.CrcIsRegister | server/xib-serial/devserial.c:80-100 | the byte-wise algorithm computes what the shift register holds after the bits of the message |
| Crcs.RegisterIsShifts | server/xib-serial/devserial.c:88-99 | feeding up to 16 bits one by one equals loading them at once and shifting |
| CrcErrors.StartInverts | server/xib-serial/devserial.c:84 | the start of 0xffff: the checksum of a message of at least two bytes is what an empty register holds after its bits with the first 16 inverted |
| CrcErrors.CheckValue | server/xib-serial/devserial.c:80-100 | the checksum of the ASCII digits 1 to 9 is 0x4B37, the check value published for this CRC |
| CrcErrors.BurstChangesRegister | server/xib-serial/devserial.c:80-100 | an error burst of at most 16 bits anywhere changes the register, whatever it held before |
| CrcErrors.BurstDetected | server/xib-serial/devserial.c:80-100 | messages that differ, but only within 16 consecutive bits, have different checksums |
| CrcErrors.TwoBytesDetected | server/xib-serial/devserial.c:80-100 | messages that differ at most in two adjacent bytes have equal checksums only if they are equal |
| CrcErrors.OddErrorsDetected | server/xib-serial/devserial.c:80-100 | messages that differ in an odd number of bits have different checksums |
| CrcOrders.PowerIsOneIff | server/xib-serial/devserial.c:80-100 | the shift register returns to where it was after exactly the multiples of 32767 steps |
| CrcOrders.TwoBitErrorsIff | server/xib-serial/devserial.c:80-100 | messages that differ in exactly two bits have the same checksum if and only if the distance of these bits is a multiple of 32767 |
| CrcErrors.RegisterParity | server/xib-serial/devserial.c:88-99 | the register has the parity of what was fed into it |
| CrcErrors.HighPasses | server/xib-serial/devserial.c:88-99 | a high byte passes unchanged through eight shifts |
| CrcErrors.ResidueIff | server/xib-serial/devserial.c:305-306 | a frame has checksum 0 exactly when its last two bytes are the checksum of the rest, low byte first |
| CrcErrors.FrameResidue | server/xib-serial/devserial.c:305-306 | every frame that is sent has checksum 0 |
| Negotiations.OpeningEnds | client/xibridge.cpp:26-81 | against any network: at most four connections are made, and success means a connection made during the call, in a supported version, the last one tried |
| Negotiations.NegotiatesDownTo | client/xibridge_client.cpp:347-358 | against a server that, while the call can last, opens in one version and ignores others, the versions tried are those from the start downwards, around the corner from 1 to 3, to the server's |
| Negotiations.NegotiationSucceeds | client/xibridge.cpp:35-80 | a server that opens in one version and ignores others is found from any start within three tries |
| Negotiations.AnswerIsFollowed | client/xibridge.cpp:50-60 | a version in the answer is taken over: the second and last try is in that version and decides |
| Negotiations.PositiveAnswerAccepted | client/xibridge_client.cpp:396-412 | the answers that servers of the three versions give are accepted |
| Negotiations.SpeakingServerExists | client/xibridge_client.cpp:372-418 | networks as assumed in these results exist for every version, without an id given twice |
| Negotiations.AnsweringServerExists | client/xibridge_client.cpp:396-402 | also such that answer in any version, supported or not |
| Negotiations.ListingServerExists | client/xibridge_client.cpp:152-214 | and such that enumerate in version 1, 2 or 3 |
| Negotiations.EnumerationDownTo | client/xibridge.cpp:114-156 | enumeration finds a server of version 1 or 3 from any start |
| Negotiations.EnumerationSucceedsIff | common/protocols.h:183-184 | enumeration succeeds against such a server if and only if its version is not 2 |
| ServerAnswers.OpeningAsAnswered | client/xibridge_client.cpp:372-418 | against a server of any version, from any version to start with: an opening succeeds, in that version, if and only if the value of the server's open response is 1; else error 0xffbc and no connection |
| ServerAnswers.OpeningRefused | common/protocols.cpp:698-708 | an error packet refuses the opening with 0xffbc whatever its code, even 1 |
| ServerAnswers.OpeningLost | client/xibridge_client.cpp:403-406 | the error notification of a version 1 device fails the opening with 0xfffb |
| ServerAnswers.OpeningUnanswered | client/xibridge.cpp:36-80 | without a connection error 2, after a failed send error 5, both at once; a server that never answers is tried in all three versions, then error 7 |
| ServerAnswers.FirstAttempt | client/xibridge_client.cpp:87-92 | a new library starts in version 1; a supported version that is set is the one the next opening tries first |
| ServerAnswers.EnumeratingAsListed | client/xibridge_client.cpp:152-214 | against a version 3 server with any devices the enumeration gives their number and their records, from any version to start with |
| ServerAnswers.EnumeratingAsListed1 | client/xibridge_client.cpp:152-214 | against a version 1 server whose reply has room for the records it announces, it gives their number and their serials, in order |
| ServerAnswers.ListedText | client/xibridge_client.cpp:198-205 | the text made of these records splits and parses to the URIs of the devices, `reserve` cut to 16 bits |
| ServerAnswers.VersionAsAnswered | client/xibridge_client.cpp:104-150 | the version response of a server is reported as version 3; the code of an error packet is the error |
| ServerAnswers.ClosingAsAnswered | client/xibridge_client.cpp:488-528 | a closing counts as done if and only if the value of the close response is 1, in every version; an error packet gives 0xfffb |
| ServerAnswers.CommandAsAnswered | client/xibridge_client.cpp:420-457 | the application gets the bytes that the device answered with, in version 2 behind the four bytes of its result; an error packet gives its code and no bytes |
| ServerAnswers.ServerSees3 | common/protocols.cpp:556-634 | the version 3 server decodes what the client sends as an opening, closing or command of the client's device, with data and answer length, as a request for the list, and as one for the version |
| ServerAnswers.ServerSees2 | common/protocols.cpp:542-605 | the version 2 server decodes the opening, closing and command of the device's serial number |
| ServerAnswers.DeviceSees1 | common/protocols.cpp:526-540 | version 1 packets show their type, the serial number and the data in their places |
| ServerAnswers.AnswerTypes | common/protocols.h:591-607 | the type numbers of all answers, as they stand in the packets |
| ServerAnswers.OpensPrintedDevice | client/xibridge_client.cpp:216-240 | an opening of a printed URI names its device, `reserve` cut to 16 bits |
| ServerAnswers.ReplyingServerExists | client/xibridge_client.cpp:372-418 | networks as assumed for openings exist for every version and value, without an id given twice |
| ServerAnswers.DeviceServerExists | client/xibridge_client.cpp:152-214 | and for every list of devices |
| ConnRegistries.RegistryChange | client/bindy_helper.cpp:42-95 | what each call does to the registry: failures and queries nothing, an opening adds exactly its connection, closing removes exactly its connection |
| ConnRegistries.OpeningReachesServer | client/xibridge.cpp:26-81 | on a network that gives no id twice, opening against a server that speaks one version succeeds within three tries and adds one connection with that version |
| ConnRegistries.RunKeepsInv | client/xibridge.cpp:26-183 | over all runs of calls every registered connection has a supported version and an id that was given before |
| ConnRegistries.RegistryIsOpenConnections | client/bindy_helper.cpp:42-95 | after any run the registry holds exactly the connections opened and not closed since, with the version negotiated and the device named at the opening |
| ConnRegistries.EnumeratingTakesTime | client/xibridge.cpp:114-156 | an enumeration makes at most four connections |
| ServerAnswers.OpenCallAsAnswered | client/xibridge.cpp:26-81 | the opening call against all servers above: if granted, exactly one new entry for the device; if refused, the registry as before |
| ServerAnswers.EnumerateCallAsAnswered | client/xibridge.cpp:103-156 | the enumeration call against all servers above: number, records, and a text that parses to the URIs of the devices |
| ServerAnswers.QueryCallAsAnswered | client/xibridge.cpp:163-183 | the version query against a server that answers with its version or an error |
| ServerAnswers.CommandCallAsAnswered | client/xibridge_client.cpp:459-483 | a command of the application against a device that answers or an error: the bytes, cut to the room there is |
| Clients.GetData | client/xibridge_client.cpp:403-406 | decoding by version, and the error a decoder stores |
| Clients.Bindy.Connect | client/bindy_helper.cpp:42-73 | a valid id is registered for the client, a failure registers nothing |
| Clients.Bindy.Disconnect | client/bindy_helper.cpp:75-95 | removes exactly the entry of the connection |
| Clients.Client.OpenConnection | client/xibridge_client.cpp:360-370 | connects and registers the client, or reports that there is no connection |
| Clients.Client.DecrementServerProtocolVersion | client/xibridge_client.cpp:347-358 | one version down, from 1 to the last |
| Clients.Client.SendAndReceive | client/xibridge_client.cpp:311-339 | the reply, or a send error, or a timeout; always a send error on a connection that is not registered |
| Clients.Client.OpenDevice | client/xibridge_client.cpp:372-418 | one attempt in the current version; an answer in another version is taken over and reported |
| Clients.Client.OpenInSomeVersion | client/xibridge.cpp:36-72 | the loop has the outcome described by `Opening`, and registers at most this client |
| Clients.Client.ExecEnumerate | client/xibridge_client.cpp:152-214 | one enumeration attempt in the current version |
| Clients.Client.EnumerateInSomeVersion | client/xibridge.cpp:115-152 | the loop has the outcome described by `Enumerating`, and registers at most this client |
| Clients.Client.ExecVersionRequest | client/xibridge_client.cpp:104-150 | a version query in version 3 |
| Clients.Client.CloseConnectionDevice | client/xibridge_client.cpp:488-528 | whatever the server answers, the connection is given up and its entry removed; the answer is that of `TryClose`; nothing happens without a connection, or in an unsupported version |
| Clients.Client.SendDataAndReceive | client/xibridge_client.cpp:420-457 | a command has the bytes and the error of `TryCommand`; nothing is sent without a connection, or in an unsupported version |
| Clients.Api.OpenDeviceConnection | client/xibridge.cpp:26-81 | the call does what `Do` says: on success one new entry with a new client, on failure the registry as before; against a server that speaks one version it succeeds, with that version, if and only if the server answers with the value 1 |
| Clients.Api.CloseDeviceConnection | client/xibridge_client.cpp:530-544 | removes exactly the entry of the connection; an unknown one is no error |
| Clients.Api.RequestResponse | client/xibridge_client.cpp:459-483 | a command over a connection gives what its device answers, and leaves the registry as it is; no connection is an error |
| Clients.Api.EnumerateAdapterDevices | client/xibridge.cpp:103-156 | error, number, records and text of the enumeration; the registry is as before; against a server of version 3 or 1 the text parses to the URIs of the devices it lists; against one that lists in one version it succeeds if and only if that is not version 2 |
| Clients.Api.GetServerLastProtocolVersion | client/xibridge.cpp:163-183 | version or error of the query: 3 from a server that answers with its version, the code of an error packet; the registry is as before |
| Clients.Api.SetBaseProtocolVersion | client/xibridge_client.cpp:87-92 | only a supported version becomes the version to start with |
| Clients.Api.GetConnectionProtocolVersion | client/xibridge_client.cpp:94-102 | the negotiated version of a connection, the base version for an unknown one, always a supported one |

## Left out

- The step machine of the device table is a transition system on values, because its steps interleave; the class `MapDevIdPHandle` has the source's form for one call at a time. Aliasing of the element references the source keeps across the release of the table lock is not modelled.
- DeviceMaps.MapDevIdPHandle.LockCreateDeviceMutex: requires that no other thread is inside a lock or owns a device mutex; a method that waits for other threads cannot be written, and the step machine covers those states.
- DeviceMaps.MapDevIdPHandle.UnlockDeviceMutex: requires the same, but for the mutex that is given back.
- DeviceMaps.MapDevIdPHandle.IsActualConnection: requires the same of the read-write locks.
- DeviceMaps.MapDevIdPHandle.OpenIfNot: requires that the call overlaps no other.
- DeviceMaps.MapDevIdPHandle.CreateUnlocked: requires that no other thread uses the table while the device is created.
- DeviceMaps.MapDevIdPHandle.RemoveConnOrRemoveDevice: requires that the call overlaps no other.
- DeviceMaps.MapDevIdPHandle.CloseUnused: requires that no other thread is inside a lock.
- DeviceMaps.MapDevIdPHandle.OperationSendRequest: requires that the call overlaps no other.
- C++ data races on `std::map` lookups outside of locks (`server/mapdevidphnd.cpp:142, 295, 321`): every container operation is one atomic step.
- Table keys are ids that differ only in their serial number, as connections of one server's family do; ids on which `operator<` is no order are excluded from the table.
- Device id `UINT32_MAX` stands for "unknown" in removals, as in the source; a send to that id removes the device of an unknown connection, id 0, and the model keeps that.
- `urpc_operation_send_request` takes the same steps as `operation_send_request` and is not modelled twice.
- Whether a device opens or answers, bindy sockets, timeouts and the reply wait are arbitrary decisions of the environment; serial port I/O, logging and time are not modelled.
- The connection layer that calls the table (serialising the calls of a connection) is an assumption of `DeviceRefCount`, not a model.
- Liveness under fair scheduling is not proved; `EveryRunCanFinish` says that all calls can always be finished.
- Protocol12s.Protocol2.GetDataFromRequest: requires that a command has at least four bytes of payload, because the source reads past the end of a shorter one.
- The server side of version 1, `Hex24`, little-endian ids, `memread` and `meminsert_start` are not used by the server.
- Buffers have fewer than 2^31 bytes, since the source computes positions and sizes with `int`.
- What `sscanf` makes of a `0x` without a digit behind it differs between libraries; `Scanfs.BARE_PREFIX_IS_ZERO` leaves it open, and the results hold either way. White space is that of the C locale.
- Negotiations.EnumerationSucceedsIff: says nothing about a server that answers enumerations with error packets, whose code the client takes for a number of devices.
- Clients.Api.EnumerateAdapterDevices: what the out-parameters hold beside an error is not described; the text is made once, after the last attempt, and not described when `(|host| + 40) * count` reaches 2^31.
- ConnRegistries.RegistryIsOpenConnections: assumes that the network component never gives a connection id twice, that disconnecting does not throw, and that calls do not overlap.
- Null output pointers: only the closing call's null parameter is modelled; the other calls answer it with an error before they do anything.
- Clients.Client.CloseConnectionDevice: what it returns for an answer that the decoder rejects is not described; the source then reads a packet type that was never set. The public call does not look at it.
- Clients.Client.SendDataAndReceive: requires that the data has fewer than 2^31 - 72 bytes, so that sizes stay `int`.
- Clients.Api.RequestResponse: requires the same.
- Sending and receiving raw data outside of commands is not modelled.
- The check of response checksums (`server/xib-serial/devserial.c:373-376`), which covers two bytes and does not change the result.
- The supervisor, virtual device slots, command lines, examples, tests and the memory of protocol objects and result strings.
