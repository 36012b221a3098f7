# Stream tables, migration and device buffers of the Sprite kernel

This project models parts of the Sprite kernel that keep state by hand: a process's table of open
streams and the reference counts behind it, the bytes in which that table travels when a process
migrates, the paging of directories, the rings between terminal interrupts and kernel processes, the
round-robin queues of disk controllers, the loops that turn partial replies into one read or write,
select, raw block transfers down to the command block a SCSI disk gets, and the system log. It proves
what each step keeps and what whole runs guarantee, and, where the code falls short of what its
comments promise, exactly when it does not.

Most components come in two layers. The `...Spec` modules hold functions on values and the lemmas about
them: invariants over every run, round trips, conservation. The other modules hold the classes and
methods in the form of the kernel's own code, with its arrays, indices and loops, each proved to do what
those functions say. The terminal rings and the select time-out are state machines whose steps are
single loads and stores, so that every interleaving of interrupt and process is covered.

| component | modules |
|---|---|
| stream table and reference counts | StreamSpec, StreamSafety, StreamSystem, StreamEffects, StreamTables, StreamCalls |
| migration | MigrationSpec, MigrationArrival, Migration |
| directory paging | DirectorySpec, Directory |
| terminal rings | Rings, TtyInput, TtyOutput, TtyDevice |
| runs of state machines, and what all share | Runs, Common |
| device queues | DevQueueSpec, DevQueues |
| read, write and writev | StreamIOSpec, StreamIO |
| select | SelectSpec, Select, SelectTimeout |
| raw block devices and SCSI disks | RawBlockSpec, RawBlockDev, ScsiDisk |
| system log | SyslogSpec, Syslog |

## How the outside world appears

Replies of servers, device routines and libraries are parameters: a sequence of replies for a loop that
may go round any number of times, one reply for a single call. Where the sequence ends before the loop
does, the process is still waiting. What is assumed of the routines behind them:

- A stream identifier that a name server or Fsio_CreatePipe gives out is one that nobody on this host
  refers to; an I/O handle's close routine does nothing to the stream handle.
- A stream's read routine leaves the buffer and offset of the parameter block alone; a write routine may change
  the whole parameter block. Either may move bytes whatever status it then reports.
- A select routine only clears bits.
- The runs of terminal output lie between two opens of the terminal, and begin with an idle device. Opens and
  failed opens are steps of terminal input.
- Both hosts of a migration have the same word order; a file type is never NIL.
- A directory is well formed: record lengths are multiples of 4 in 8..512, name lengths are not negative, and
  a live record is long enough for a name that a struct direct can hold. Its headers are all in one byte order.
  The host's own order is taken to be most significant byte first. `sys/dir.h` is not part of this model;
  DIRSIZ, struct direct and struct dirent are those of 4.3BSD.
- A partition's sectors have 32-bit addresses. `scsi.h` is not part of this model; command blocks have the
  layout of SCSI-2, ANSI X3.131-1994.

## Where the code and its promises differ

- Fs_Close gives up on a last reference when recovery fails, and the count stays (GaveUpKeepsCount).
- Fs_DeencapFileState does not check that two records name different slots; if they do, a stream is lost.
  Encapsulation never writes such records (ClosedOnce, EncodedNames).
- The comment in Fs_GetdirInt says that 512 and 8 swap out of 8..512, and that all other values then do too.
  All but 257 do; 257 is no multiple of 4, so it is no record's length (SwapsIntoRange).
- Fs_Read counts bytes twice when its routine moves some, reports an error that can be recovered from, and
  then moves some again; Fsrmt_Read is such a routine (ReadReportsFront, RecoveredBytesCountTwice).
- Transfer samples the output ring once, with no lock against the device. Output stops exactly when the device
  goes idle after a sample that found bytes and the transfer then stores something (OutputStopsExactly).
- Opening a terminal resets the indices of its rings one by one, with interrupts on. An arrival between two of
  them can be left without anyone to take it (DisturbedOpenLosesWakeup). A handler that loaded insertInput
  before the open and stores the index after it puts values out of order until the next open (FirstInFirstOut),
  and can leave them without anyone to take them (WakeupLostExactly, OvertakenOpenMixesUp). On the output side
  the device can send an old byte again, or move extractOutput back (OldByteBetweenResets, OpenStartsAfresh).
- A getdents or getdirentries call that fails at a record with too long a name skips the entries of the page it
  was reading (Getdents, FailureSkips).
- Fs_WritevStub reports fewer bytes than it wrote when a piece fails after writing something
  (VectorCounts).
- Fs_Select polls streams beyond numStreams when earlier rows select nothing (PolledExactly).
- DevRawBlockDevRead and DevRawBlockDevWrite report only the last piece when they stop early
  (ReportedIsMoved), and a read of nothing fails where a write of nothing succeeds.
- An empty request makes a SCSI disk move 256 sectors, or a whole partition (ToldIsAsked).
- Dev_SyslogWrite, entered with the buffer wrapped and not full, copies to the start of the buffer instead
  of behind the last byte (EnqueuesExactly).

## Model

| member | source | states |
|---|---|---|
| `StreamSystem.ReachableSafe` | CVSROOT/kernel/fs/fsStreamOps.c:657-742 | After any run of open, pipe, dup, dup2, close, close-on-exec, chdir, fork and exit by any number of processes, with any replies of the servers, no destroyed stream has been used; whatever a slot or current directory refers to is in the handle table; and each reference count is the number of slots and current directories that refer to the stream plus the closes that gave up on it |
| `StreamSystem.DestroyedOnlyWhenUnreferenced` | CVSROOT/kernel/fs/fsStreamOps.c:718-740 | In every reachable state a step destroys a stream only if nothing on the host refers to it afterwards; a stream counted beyond its abandoned closes has a process that refers to it |
| `StreamSystem.ExactWhenServersAnswer` | CVSROOT/kernel/fs/fsStreamOps.c:657-742 | While no close gives up on recovery, every count is exactly the number of references, over every run; once all processes are gone this host counts nothing |
| `StreamSystem.GaveUpKeepsCount` | CVSROOT/kernel/fs/fsStreamOps.c:718-734 | A close leaves its reference counted, although the slot is cleared, exactly when it is the last one and waiting for recovery fails |
| `StreamSystem.StepKeeps` | CVSROOT/kernel/fs/fsInit.c:451-620 | Every event of the system keeps the counting invariant |
| `StreamSafety.CloseHolds` | CVSROOT/kernel/fs/fsStreamOps.c:657-742 | Closing gives up exactly the reference closed, however the server answers |
| `StreamSafety.OpenKeeps` | CVSROOT/kernel/fs/fsSysCall.c:151-206 | Open keeps the counts, also when the name lookup, the I/O open or the copy-out of the ID fails |
| `StreamSafety.FailedOpenKeepsShared` | CVSROOT/kernel/fsio/fsioStream.c:764-797 | An open that fails at the I/O handle destroys the stream if and only if no other host is on its client list; otherwise it stays with the references it had |
| `StreamSafety.PipeKeeps` | CVSROOT/kernel/fs/fsSysCall.c:1860-1921 | Making a pipe keeps the counts, also when its IDs cannot be copied out and both ends are undone |
| `StreamSafety.NewIDReplaces` | CVSROOT/kernel/fs/fsTopStream.c:326-368 | dup2 onto an open slot keeps the counts, and the source survives the close of the target even when both slots hold the same stream |
| `StreamSafety.NewIDKeeps` | CVSROOT/kernel/fs/fsTopStream.c:294-370 | dup and dup2 keep the counts in every case: first free slot, list growth, replaced slot, refused request |
| `StreamSafety.CloseOnExecKeeps` | CVSROOT/kernel/fs/fsInit.c:544-561 | Closing the marked streams at exec keeps the counts |
| `StreamSafety.ExecClosesMarked` | CVSROOT/kernel/fs/fsInit.c:544-561 | Exec leaves every slot as it was, except that the slots whose close-on-exec flag is set are NIL; flags, directory, groups and mask stay |
| `StreamSafety.ChangeDirKeeps` | CVSROOT/kernel/fs/fsNameOps.c:428-452 | chdir gives up the old directory only when the new one is open |
| `StreamSafety.CloseStateKeeps` | CVSROOT/kernel/fs/fsInit.c:584-620 | Each phase of process death gives up exactly the references it closes |
| `StreamSafety.InheritHolds` | CVSROOT/kernel/fs/fsInit.c:451-524 | Fork adds one reference for each open slot and for the current directory of the child |
| `StreamSafety.ForkCopies` | CVSROOT/kernel/fs/fsInit.c:451-524 | The child has the parent's slots, directory, groups and mask, and the flags of every open slot; those of a NIL slot are cleared |
| `StreamSafety.PipeStored` | CVSROOT/kernel/fs/fsTopStream.c:65-117 | Two streams entered one after the other land in different slots, also when the list grows in between |
| `StreamEffects.OpenEnters` | CVSROOT/kernel/fs/fsSysCall.c:151-206 | An open puts its stream into the lowest free ID, without flags, and changes no other ID; a failed copy-out clears that ID again, and a failed open leaves the process as it was |
| `StreamEffects.PipeEnters` | CVSROOT/kernel/fs/fsSysCall.c:1860-1921 | The read end of a pipe goes into the lowest free ID and the write end into the next lowest; no other ID changes |
| `StreamEffects.InstallsLowest` | CVSROOT/kernel/fs/fsTopStream.c:65-117 | The lowest free ID, and the list that holds it: 8 slots at first, twice as many whenever it is full, with nothing in the new ones |
| `StreamEffects.CloseClears` | CVSROOT/kernel/fs/fsSysCall.c:228-270 | A close clears the ID it is given, if it stands for a stream, and no other |
| `StreamEffects.DupShares` | CVSROOT/kernel/fs/fsTopStream.c:294-370 | A duplicate stands for the stream of its source, in the lowest free ID without flags or in the ID asked for, which keeps the flags it had; a refused request, or one for the source itself, changes nothing |
| `StreamEffects.MayDup` | CVSROOT/kernel/fs/fsTopStream.c:332-350 | A given ID is refused exactly when the source is not open, when it is negative, or when it is past 128 and past twice the length of the list; each with its status |
| `StreamEffects.ChangeDirReplaces` | CVSROOT/kernel/fs/fsNameOps.c:428-452 | chdir replaces the directory exactly when the new one can be opened, and changes nothing else |
| `StreamEffects.ExecClears` | CVSROOT/kernel/fs/fsInit.c:544-561 | The exec call clears the marked IDs and no others |
| `StreamEffects.FlagsAreSet` | CVSROOT/kernel/fs/fsSysCall.c:1795-1822 | Setting descriptor flags sets those of an open ID, and no others |
| `StreamEffects.ExitEmpties` | CVSROOT/kernel/fs/fsInit.c:584-620 | The first phase of an exit leaves the directory and no streams, the second nothing |
| `StreamEffects.CloseEnds` | CVSROOT/kernel/fs/fsStreamOps.c:677-734 | How the retry loop of Fs_Close ends: with the first status that recovery does not help, when recovery fails, after one recovery if the host does not recover transparently, and with a time-out if the server never answers |
| `StreamEffects.CloseTakesOne` | CVSROOT/kernel/fs/fsStreamOps.c:657-742 | What a close does to one handle: one reference less, the client list of other hosts as it was, and the stream gone exactly when it was the last reference and no other host has it open |
| `StreamEffects.OneMore` | CVSROOT/kernel/fsio/fsioStream.c:158-195 | A copy, or entering a stream, adds one reference; other hosts on the client list stay |
| `StreamEffects.RemoteChangesClients` | CVSROOT/kernel/fsio/fsioStream.c:300-331 | Other hosts come and go on a client list without changing this host's count or its own place on the list |
| `StreamEffects.SyscallChangesOne` | CVSROOT/kernel/fs/fsSysCall.c:151-270 | A call changes the process that makes it and no other |
| `StreamEffects.ForkAddsOne` | CVSROOT/kernel/fs/fsInit.c:451-524 | A fork changes no process but the child |
| `StreamEffects.ExitChangesOne` | CVSROOT/kernel/fs/fsInit.c:584-620 | An exit changes no other process |
| `StreamTables.HandleTable.Close` | CVSROOT/kernel/fs/fsStreamOps.c:657-742 | The object form of Fs_Close: the new handle table is the one of the specification, and no other stream object changes |
| `StreamTables.HandleTable.Copy` | CVSROOT/kernel/fsio/fsioStream.c:614-621 | Copying a stream adds one to its reference count and returns the same object |
| `StreamTables.HandleTable.Install` | CVSROOT/kernel/fsio/fsioStream.c:158-195 | A stream new to this host enters the handle table with one reference |
| `StreamTables.HandleTable.Open` | CVSROOT/kernel/fs/fsNameOps.c:59-174 | Fs_Open returns a counted stream or leaves the counts alone; a failed I/O open drops this host, and Fsio_StreamDestroy keeps a stream that other hosts have open |
| `StreamTables.HandleTable.OpenInPlaceOf` | CVSROOT/kernel/fs/fsNameOps.c:428-452 | The new directory is opened before the old one is closed; the status is that of the open |
| `StreamTables.HandleTable.CloseAll` | CVSROOT/kernel/fs/fsInit.c:597-608 | Every open slot is closed once, in order |
| `StreamTables.HandleTable.CopyAll` | CVSROOT/kernel/fs/fsInit.c:487-507 | Every open slot is copied once |
| `StreamTables.ProcessState.Empty` | CVSROOT/kernel/fs/fsInit.c:418-432 | A process state starts without streams |
| `StreamTables.ProcessState.GrowStreamList` | CVSROOT/kernel/fs/fsTopStream.c:172-208 | Growing copies pointers and flags into new arrays and fills the rest with NIL and no flags |
| `StreamTables.ProcessState.MakeRoom` | CVSROOT/kernel/fs/fsTopStream.c:75-108 | The index returned is the first free slot of the list, which has been grown when it was empty or full |
| `StreamTables.ProcessState.GetStreamID` | CVSROOT/kernel/fs/fsTopStream.c:65-117 | The stream lies in the first free slot with no flags; every other slot is as it was |
| `StreamTables.ProcessState.GetStreamPtr` | CVSROOT/kernel/fs/fsTopStream.c:234-263 | The pointer of an open ID, or FS_INVALID_ARG for an ID out of range or not open |
| `StreamTables.ProcessState.ClearStreamID` | CVSROOT/kernel/fs/fsTopStream.c:138-146 | The slot is NIL and nothing else changes |
| `StreamTables.ProcessState.GetNewID` | CVSROOT/kernel/fs/fsTopStream.c:294-370 | The list and the handle table after dup and dup2, the status of every kind of request, and that both IDs then stand for one stream |
| `StreamTables.ProcessState.DupTo` | CVSROOT/kernel/fs/fsTopStream.c:322-369 | A request for a given ID: same ID, negative ID, too big an ID, growth, replacement |
| `StreamTables.ProcessState.UserClose` | CVSROOT/kernel/fs/fsSysCall.c:228-270 | The slot is cleared and the stream closed, with the status of Fs_Close, or FS_NEW_ID_TOO_BIG |
| `StreamTables.ProcessState.OpenStub` | CVSROOT/kernel/fs/fsSysCall.c:151-206 | A successful open returns an ID that stands for the opened stream; a failed copy-out undoes both steps |
| `StreamTables.ProcessState.CreatePipe` | CVSROOT/kernel/fs/fsSysCall.c:1860-1921 | Both ends are entered, or both are cleared and closed; Fsio_CreatePipe returns nothing but SUCCESS |
| `StreamTables.ProcessState.ChangeDirectory` | CVSROOT/kernel/fs/fsNameOps.c:428-452 | The current directory is the new stream exactly when the open succeeds; otherwise the open's status is returned |
| `StreamTables.ProcessState.CloseForExec` | CVSROOT/kernel/fs/fsInit.c:544-561 | The loop over the slots leaves NIL where the close-on-exec flag is set and every other slot as it was, and does to the handle table what the specification says |
| `StreamTables.ProcessState.CloseProcess` | CVSROOT/kernel/fs/fsInit.c:584-620 | The two phases of Fs_CloseState on the objects |
| `StreamTables.ProcessState.InheritState` | CVSROOT/kernel/fs/fsInit.c:451-524 | The child has the parent's streams, flags, directory, groups and permissions in arrays of its own |
| `StreamCalls.Execute` | CVSROOT/kernel/fs/fsTopStream.c:294-370 | Any system call on a process whose counts are right leaves them right, does what the specification says, and leaves the pointers of every other process alive |
| `StreamCalls.Terminate` | CVSROOT/kernel/fs/fsInit.c:584-620 | The death of a process gives up each of its references once |
| `StreamCalls.OthersStayLive` | CVSROOT/kernel/fs/fsStreamOps.c:657-742 | No call of one process leaves another process a pointer to a destroyed stream |
| `MigrationSpec.RoundTrip` | CVSROOT/kernel/fs/fsTopMigrate.c:243-441 | Decoding what encapsulation wrote gives back the groups, permission mask, every flag byte, the prefix, the current directory and each stream at its own index, NIL slots staying NIL, for all lengths and whatever the buffer held before; each stream has every field it left with, and every bit of its flags but bit 30, which is set |
| `MigrationSpec.Layout` | CVSROOT/kernel/fs/fsTopMigrate.c:243-290 | Where each part lies in the buffer, with its padding |
| `MigrationSpec.StreamRoundTrip` | CVSROOT/kernel/fsio/fsioMigrate.c:74-117 | The nineteen words of a stream give the stream back, with or without name information; bit 30 of its flags is then set, and every other bit is as it was |
| `MigrationSpec.InfoInOrder` | CVSROOT/kernel/fsio/fsio.h:31-39 | The words of a stream in the order of Fsio_MigInfo |
| `MigrationSpec.NilSlotIsZeros` | CVSROOT/kernel/fs/fsTopMigrate.c:279-289 | A NIL slot travels as NIL and zeros |
| `MigrationSpec.NameRead` | CVSROOT/kernel/fs/fsTopMigrate.c:381-387 | The counted, null-ended prefix reads back as written |
| `MigrationSpec.SlotsRead` | CVSROOT/kernel/fs/fsTopMigrate.c:426-441 | Entering the records one by one fills the list as it was |
| `MigrationSpec.PlacesFound` | CVSROOT/kernel/fs/fsTopMigrate.c:347-383 | The counts in the buffer lead to the places where the parts were written |
| `Migration.FileState.InitiateMigration` | CVSROOT/kernel/fs/fsTopMigrate.c:71-126 | The announced size, or FAILURE for a directory without name information or prefix |
| `Migration.FileState.EncapFileState` | CVSROOT/kernel/fs/fsTopMigrate.c:175-298 | Exactly the announced bytes are written and they are the encoding; a state of another size is refused untouched; afterwards no slot and no directory is left |
| `Migration.EncapStream` | CVSROOT/kernel/fsio/fsioMigrate.c:74-117 | The words written, which StreamRoundTrip reads back, and those that keep what the buffer held when there is no name information |
| `MigrationSpec.MarkSets` | CVSROOT/kernel/fsio/fsioMigrate.c:112-112 | Setting FS_MIGRATED_FILE sets bit 30 of the flags and changes no other bit |
| `Migration.FileState.EncapSlots` | CVSROOT/kernel/fs/fsTopMigrate.c:266-290 | The loop over the stream list: records filled in order, slots set to NIL |
| `Migration.NewState.DeencapFileState` | CVSROOT/kernel/fs/fsTopMigrate.c:320-456 | For every combination of replies: which status is returned, which references were obtained, and which were closed; on success the state holds what decoding gives |
| `Migration.NewState.CloseState` | CVSROOT/kernel/fs/fsInit.c:584-620 | The directory, then every slot in order, is closed once |
| `Migration.NewState.DeencapSlots` | CVSROOT/kernel/fs/fsTopMigrate.c:423-441 | The loop stops at the first record whose stream cannot be obtained, with that slot NIL |
| `Migration.CopiedIsDecoded` | CVSROOT/kernel/fs/fsTopMigrate.c:347-441 | A state filled part by part is what the buffer decodes to |
| `Migration.EncodedIsReadable` | CVSROOT/kernel/fs/fsTopMigrate.c:347-441 | What encapsulation wrote, decoding can read to its end |
| `Migration.ArrivesAsItLeft` | CVSROOT/kernel/fs/fsTopMigrate.c:243-441 | A process that has arrived without a failure has the groups, mask, flags, directory and streams it left with, each stream in its own slot and with all its fields and flag bits, bit 30 being set |
| `MigrationArrival.ListIsRead` | CVSROOT/kernel/fs/fsTopMigrate.c:426-441 | The stream list holds, slot by slot, the streams that reading the buffer gives |
| `MigrationArrival.FailureReleasesAll` | CVSROOT/kernel/fs/fsTopMigrate.c:451-454 | When decoding an encoded process fails at any record, every stream obtained so far is closed as often as it was obtained, and nothing else is |
| `MigrationArrival.ClosedOnce` | CVSROOT/kernel/fs/fsTopMigrate.c:426-454 | For any buffer: a stream obtained before the failure is closed once if and only if no later record up to the failing one names its slot |
| `MigrationArrival.SharedSlotLosesStream` | CVSROOT/kernel/fs/fsTopMigrate.c:429-436 | Two records that name one slot lose the first stream |
| `MigrationArrival.EncodedNames` | CVSROOT/kernel/fs/fsTopMigrate.c:269-287 | In an encoded process record k names slot k or none |
| `DirectorySpec.AllDelivered` | CVSROOT/kernel/fs/fsStubs.c:4033-4160 | Any run of calls with any legal sizes that ends in an empty one has delivered every live entry, each once and in order: a program that steps through the bytes by d_reclen reads exactly the numbers, names and offsets of the records that have a file number and a name of at most 255 bytes |
| `DirectorySpec.PageReads` | CVSROOT/kernel/fs/fsStubs.c:4097-4127 | So it is for the bytes of each single call, which end where a d_reclen ends |
| `DirectorySpec.EntryReads` | CVSROOT/kernel/fs/fsStubs.c:4109-4113 | Field by field, what a program finds in one entry: d_reclen is the entry's length, and file number, name length, name and, in a struct dirent, offset are the record's |
| `DirectorySpec.DirSizIsTight` | CVSROOT/kernel/fs/fsStubs.c:4099-4099 | DIRSIZ is whole words, holds the name and a null byte, and has no word to spare |
| `DirectorySpec.NothingLost` | CVSROOT/kernel/fs/fsStubs.c:4097-4142 | After any run of calls, what was delivered and what is still owed make up the directory |
| `DirectorySpec.OnBoundary` | CVSROOT/kernel/fs/fsStubs.c:4129-4142 | After any run of successful calls the file pointer is on a record boundary |
| `DirectorySpec.CallsMakeProgress` | CVSROOT/kernel/fs/fsStubs.c:4069-4142 | There are at most as many calls that deliver something as there are entries |
| `DirectorySpec.SwappedLengthIsNoLength` | CVSROOT/kernel/fs/fsStubs.c:3959-3971 | So a multiple of 4 in 8..512 never is: a record's length tells the byte order |
| `DirectorySpec.SwapsIntoRange` | CVSROOT/kernel/fs/fsStubs.c:3959-3964 | Of the lengths in 8..512, exactly 257 is still one when its bytes are swapped |
| `DirectorySpec.ForeignReads` | CVSROOT/kernel/fs/fsStubs.c:3981-4002 | A header is in the other byte order exactly when reading its fields backward gives the record's file number and lengths |
| `Directory.OpenDirectory.Getdents` | CVSROOT/kernel/fs/fsStubs.c:4033-4300 | getdents and getdirentries: a buffer too small is refused; otherwise the call returns -1 if and only if a record with too long a name is in the page it reads last, ahead of which the page's entries leave room, and the file pointer is then behind that page. A call that succeeds delivers whole entries, in order, none skipped, at most nbytes bytes, nothing only at the end, stops only where the next entry does not fit, and leaves the pointer on a boundary. The page read last starts at the file pointer unless all that lies there is free; the outer loop ends |
| `DirectorySpec.FailureSkips` | CVSROOT/kernel/fs/fsStubs.c:4097-4112 | What a failing call leaves behind the file pointer, on a boundary, is the directory without all the entries of its page |
| `DirectorySpec.FailureLeavesBoundary` | CVSROOT/kernel/fs/fsStubs.c:4097-4112 | The pointer need not be on a boundary then: a 268-byte page ends inside a 512-byte record |
| `Directory.OpenDirectory.GetdirInt` | CVSROOT/kernel/fs/fsStubs.c:3904-4014 | Whatever byte order the disk has, every whole header read is in this host's order |
| `Directory.SwapHeaders` | CVSROOT/kernel/fs/fsStubs.c:3977-4012 | The walk ends and leaves the native records in the buffer, each header swapped once |
| `Directory.SwapHeader` | CVSROOT/kernel/fs/fsStubs.c:3988-4002 | The three fields of a header are reversed in place and nothing else changes |
| `Directory.OpenDirectory.NativeHere` | CVSROOT/kernel/fs/fsStubs.c:3966-3971 | A first length in 8..512 means that nothing needs swapping |
| `Directory.OpenDirectory.ForeignHere` | CVSROOT/kernel/fs/fsStubs.c:3966-3971 | A first length outside 8..512 means that every header does |
| `Directory.TakeRecords` | CVSROOT/kernel/fs/fsStubs.c:4097-4127 | The inner loop never overruns nbytes, takes whole records and at least one, and fails exactly when a record with too long a name blocks the page |
| `Directory.TakeRecord` | CVSROOT/kernel/fs/fsStubs.c:4099-4127 | One record: too long, free, live and fitting, or left for the next call |
| `Directory.PutEntry` | CVSROOT/kernel/fs/fsStubs.c:4115-4119 | The bytes of the user's entry: offset, file number, new length, name |
| `Directory.OpenDirectory.NextPage` | CVSROOT/kernel/fs/fsStubs.c:4129-4142 | The file pointer is set back, or forward, to the first record not taken |
| `TtyInput.NoLostWakeup` | CVSROOT/kernel/dev/devTty.c:529-551 | In every run in which no step loses a wake-up as in WakeupLostExactly: while the terminal is open and its ring holds values, a transfer is scheduled, running, or about to be scheduled |
| `TtyInput.ClosesUndoOpens` | CVSROOT/kernel/dev/devTty.c:108-146 | A terminal is open from an open that Td accepts until as many closes as opens have come |
| `TtyInput.WakeupLostExactly` | CVSROOT/kernel/dev/devTty.c:110-124 | Over every run, with opens at any time: values wait in an open terminal with nobody to take them if and only if a step has lost the wake-up and nothing has made the driver forget them since. The steps that lose it are an open that resets extractInput after values have arrived in the ring, with nothing scheduled or about to be and no test of the first value still to come; and a stale store into the ring of an open terminal, of any index but 0, with nothing scheduled or running |
| `TtyInput.OldExtractLosesWakeup` | CVSROOT/kernel/dev/devTty.c:110-124 | Without a stale store, such an open found extractInput not 0 |
| `TtyInput.FirstInFirstOut` | CVSROOT/kernel/dev/devTty.c:521-631 | After every run of single loads and stores, interleaved in any way and with opens at any time: the values handed on, the one in hand and the unread cells are the accepted values in order if and only if no stale store has happened since the last open began. A stale store is one of the handler's, of the index that follows one it loaded before an open reset insertInput to another. An open starts a new list of accepted values: what was unread is dropped |
| `TtyInput.InOrderThroughout` | CVSROOT/kernel/dev/devTty.c:521-631 | The values are in order after every step of a run if and only if no step is a stale store |
| `TtyInput.OvertakenOpenMixesUp` | CVSROOT/kernel/dev/devTty.c:110-124 | A run with a stale store: an old value is back in the ring ahead of the new one, and nobody will look at either |
| `TtyInput.LostNext` | CVSROOT/kernel/dev/devTty.c:521-631 | What each step does to a wake-up: it is lost after the step if and only if the step loses it, or it was lost and the step does not make the driver forget the values |
| `TtyInput.StoresAreFree` | CVSROOT/kernel/dev/devTty.c:541-541 | No store of the interrupt handler lands on an unread cell, as long as there has been no stale one since the last open |
| `TtyInput.DroppedWhenFull` | CVSROOT/kernel/dev/devTty.c:534-540 | A handler that holds the current insertInput drops its value exactly when all cells but one hold values; one that an open has overtaken, which may drop a value too, finds nothing unread |
| `TtyInput.DisturbedOpenLosesWakeup` | CVSROOT/kernel/dev/devTty.c:110-124 | Any number of values that arrive between the two resets of the open of a terminal at rest are left with nobody to take them if and only if there are some, extractInput was past the second cell, and nothing was scheduled |
| `TtyInput.CallsByMeaning` | CVSROOT/kernel/dev/devTty.c:600-622 | On a console a value is a command exactly when the value before it was a break; the calls are the meanings of the values in order |
| `TtyInput.StepInv` | CVSROOT/kernel/dev/devTty.c:521-631 | From where the two sides agree, every step keeps the agreement, except an open that overtakes the handler with an index other than 0 |
| `TtyInput.OvertakenStep` | CVSROOT/kernel/dev/devTty.c:521-552 | An overtaken handler goes away when it finds the ring full, and otherwise ends in a stale store |
| `TtyInput.SkewedStep` | CVSROOT/kernel/dev/devTty.c:521-631 | After a stale store only an open puts things right, or has its handler overtaken in turn |
| `TtyOutput.NothingOverwritten` | CVSROOT/kernel/dev/devTty.c:731-776 | Between two opens every byte taken from Td reaches the device once and in order, and no store hits an unread byte, however the device advances |
| `TtyOutput.OpenStartsAfresh` | CVSROOT/kernel/dev/devTty.c:110-124 | After the two resets of an open such a run can begin if and only if the device is not between its test of the ring and its store of extractOutput |
| `TtyOutput.OldByteBetweenResets` | CVSROOT/kernel/dev/devTty.c:110-124 | Between the two resets a device that asks for a byte is given an old one exactly when extractOutput was not 0 |
| `TtyOutput.TransferEnds` | CVSROOT/kernel/dev/devTty.c:744-765 | Each step of Transfer uses up bytes of Td or comes closer to the end of its turn, whatever the device does |
| `TtyOutput.EndsWhenFull` | CVSROOT/kernel/dev/devTty.c:744-765 | A transfer that looks for room ends exactly when the ring is full |
| `TtyOutput.EndsWhenDrained` | CVSROOT/kernel/dev/devTty.c:744-765 | One to which Td hands out all that fits ends after a block exactly when Td had less than the block has room for, and then Td is empty |
| `TtyOutput.RefillsWhenAllSent` | CVSROOT/kernel/dev/devTty.c:653-672 | The device schedules a transfer exactly when it has sent everything that was taken from Td |
| `TtyOutput.OutputFlows` | CVSROOT/kernel/dev/devTty.c:743-775 | However Transfer and the device are interleaved: between transfers a non-empty ring has an active device if the device never went idle during a transfer that had sampled bytes; and bytes left in Td are not forgotten if Td hands out all that fits |
| `TtyOutput.OutputStopsExactly` | CVSROOT/kernel/dev/devTty.c:653-776 | Over every interleaved run: a transfer ends with a non-empty ring and an idle device, and nothing starts output again, if and only if the device went idle during a transfer that had sampled bytes and that transfer then stored something |
| `TtyOutput.StaleSampleStopsOutput` | CVSROOT/kernel/dev/devTty.c:743-775 | From every state with one byte in the ring and the device sending there is such a run, and it ends with nothing scheduled either |
| `TtyDevice.DevTty.InputChar` | CVSROOT/kernel/dev/devTty.c:521-552 | The ring grows by the value unless it is full; a transfer is scheduled exactly when it was empty |
| `TtyDevice.DevTty.TransferIn` | CVSROOT/kernel/dev/devTty.c:573-631 | The ring of an open terminal is emptied into the Td and console calls in order |
| `TtyDevice.DevTty.OutputChar` | CVSROOT/kernel/dev/devTty.c:653-672 | The oldest byte, or -1; a refill is scheduled exactly when the ring becomes empty |
| `TtyDevice.DevTty.Transfer` | CVSROOT/kernel/dev/devTty.c:731-776 | As many of Td's bytes as fit move to the ring, in order, and an empty ring that fills wakes the device |
| `DevQueueSpec.ReachableQueues` | CVSROOT/kernel/dev/devQueue.c:269-450 | In every run: what left a first-in first-out queue is a prefix of what was inserted; a queue destroyed is on no list; taking from a set finds nothing exactly when no queue that has a bit in common with the mask has work; and with every bit of the mask set, exactly when no queue that has a bit has work |
| `DevQueueSpec.InSetSharesBit` | CVSROOT/kernel/dev/devQueue.c:444-444 | A mask admits a queue exactly when some bit is set in both |
| `DevQueueSpec.HeadIsTaken` | CVSROOT/kernel/dev/devQueue.c:374-450 | What is taken is the head: of the queue named, and from a set of the first queue in the ready list that has a bit of the mask |
| `DevQueueSpec.InsertWaitsOrLeaves` | CVSROOT/kernel/dev/devQueue.c:312-351 | An element leaves for the controller exactly when the queue was empty and the controller takes it; otherwise it waits at the rear, or where the driver puts it, with the others in their order |
| `DevQueueSpec.MadeAndFreed` | CVSROOT/kernel/dev/devQueue.c:221-289 | A new queue is empty and has the bit and order it was made with; a queue is freed exactly when nothing waits in it; no other queue changes |
| `DevQueueSpec.StepInv` | CVSROOT/kernel/dev/devQueue.c:312-405 | Every call keeps: a queue is on the ready list once exactly when its bit is not zero and it holds elements; left and waiting elements are the inserted ones |
| `DevQueueSpec.NotServedMovesUp` | CVSROOT/kernel/dev/devQueue.c:374-450 | A call that does not serve a ready queue never moves it back, and moves it up if its mask admits it |
| `DevQueueSpec.ServedWithin` | CVSROOT/kernel/dev/devQueue.c:427-450 | Bounded overtaking: the head of a ready queue goes to the controller within as many calls whose mask has a bit of the queue as the queue has queues ahead, plus one |
| `DevQueues.CtrlQueues.constructor` | CVSROOT/kernel/dev/devQueue.c:161-187 | A new controller has no queues and an empty ready list |
| `DevQueues.CtrlQueues.QueueCreate` | CVSROOT/kernel/dev/devQueue.c:221-249 | A new queue is empty and on no list |
| `DevQueues.CtrlQueues.QueueDestroy` | CVSROOT/kernel/dev/devQueue.c:269-289 | A queue goes exactly when it is empty, and then it is not linked |
| `DevQueues.CtrlQueues.QueueInsert` | CVSROOT/kernel/dev/devQueue.c:312-351 | The element goes to the controller, if the queue was empty and it takes it, or to its place; an empty queue with a bit joins the ready list at the rear |
| `DevQueues.CtrlQueues.QueueGetNext` | CVSROOT/kernel/dev/devQueue.c:374-405 | The head element leaves and the queue moves to the rear of the ready list or off it |
| `DevQueues.CtrlQueues.QueueGetNextFromSet` | CVSROOT/kernel/dev/devQueue.c:427-450 | The head of the first ready queue in the mask, with its client data |
| `DevQueues.CtrlQueues.Call` | CVSROOT/kernel/dev/devQueue.c:269-450 | Any call made on a state that satisfies the invariant finds the queues linked as List_Remove needs them, does the state machine's step, and leaves the invariant |
| `StreamIO.Stream.Read` | CVSROOT/kernel/fs/fsStreamOps.c:70-205 | For every sequence of replies: the status, the number of bytes reported, and how far the buffer is filled; that far it holds the stream's bytes, the rest is untouched, and the stream offset moves by the number reported |
| `StreamIO.Stream.ReadTurn` | CVSROOT/kernel/fs/fsStreamOps.c:118-196 | One turn of the read loop: when it ends and with what status, and the parameters of the next turn, which after a recovery are those of this one |
| `StreamIO.Stream.Write` | CVSROOT/kernel/fs/fsStreamOps.c:232-350 | For every sequence of replies, even if the routine scrambles the parameter block, the target is laid over once with exactly the bytes reported |
| `StreamIOSpec.WriteWouldBlock` | CVSROOT/kernel/fs/fsStreamOps.c:315-328 | FS_WOULD_BLOCK is returned exactly on a stream that does not wait, when nothing was written and the last reply says so, also with recoveries in between |
| `StreamIOSpec.WriteReturns` | CVSROOT/kernel/fs/fsStreamOps.c:285-342 | What the first reply does to a write, status by status |
| `StreamIOSpec.ReadFindsLittle` | CVSROOT/kernel/fs/fsStreamOps.c:118-170 | What a reply that would block does to a read: one that waits returns what a pipe or device had for it, and goes on behind what a file had |
| `StreamIOSpec.ReadLosesServer` | CVSROOT/kernel/fs/fsStreamOps.c:173-188 | A read whose server is lost ends when recovery fails, and otherwise asks for the same bytes again |
| `StreamIOSpec.ReadEnds` | CVSROOT/kernel/fs/fsStreamOps.c:118-196 | Any other status ends a read |
| `StreamIOSpec.RefusedExactly` | CVSROOT/kernel/fs/fsStreamOps.c:70-117 | Which transfers are refused, and with which status |
| `StreamIOSpec.PieceReturns` | CVSROOT/kernel/fs/fsStubs.c:750-785 | What the write stub returns: the bytes moved on success, and on an interruption that comes after some; otherwise -1 |
| `StreamIOSpec.ReadWouldBlock` | CVSROOT/kernel/fs/fsStreamOps.c:136-188 | FS_WOULD_BLOCK is returned exactly on a stream that does not wait whose last reply says so with nothing moved; bytes are then reported all the same exactly when an earlier reply that was recovered from moved some |
| `StreamIOSpec.ReadReportsFront` | CVSROOT/kernel/fs/fsStreamOps.c:173-196 | The number of bytes reported is how far the buffer is filled if and only if nothing is moved after a reply that moved something and was recovered from |
| `StreamIOSpec.ReportedIsTotal` | CVSROOT/kernel/fs/fsStreamOps.c:118-196 | The number of bytes reported is the sum of what the calls of the read routine move, up to the one that ends the read |
| `StreamIOSpec.RecoveredBytesCountTwice` | CVSROOT/kernel/fsrmt/fsrmtIO.c:129-169 | A two-byte read reports three bytes: the first is moved before a time-out, and both after recovery |
| `StreamIOSpec.WouldBlockReportsByte` | CVSROOT/kernel/fs/fsStreamOps.c:173-188 | A read that does not wait returns FS_WOULD_BLOCK and reports a byte |
| `StreamIOSpec.BlockingWriteMovesAll` | CVSROOT/kernel/fs/fsStreamOps.c:285-342 | A waiting write that meets only full buffers and then room moves everything |
| `StreamIOSpec.OverlayAt` | CVSROOT/kernel/fs/fsStreamOps.c:299-306 | What a write leaves at each place of its target |
| `StreamIOSpec.OverlayBoth` | CVSROOT/kernel/fs/fsStreamOps.c:304-306 | Partial writes behind one another are one write of their concatenation |
| `StreamIO.Stream.NewWriteStub` | CVSROOT/kernel/fs/fsStubs.c:750-785 | The count of a successful or partly done interrupted write, -1 otherwise; the bytes moved either way |
| `StreamIO.Stream.Writev` | CVSROOT/kernel/fs/fsStubs.c:1104-1164 | The target is laid over once with a prefix of the concatenated vectors; the result for every way the pieces can end |
| `StreamIOSpec.VectorCounts` | CVSROOT/kernel/fs/fsStubs.c:1128-1163 | The count returned is the number of bytes written if and only if no piece fails after writing something |
| `StreamIOSpec.VectorEnds` | CVSROOT/kernel/fs/fsStubs.c:1128-1163 | A vector write goes on exactly while its pieces are written whole; the first that is not adds what it wrote to the count, or nothing if it failed |
| `StreamIOSpec.FailedPieceIsNotCounted` | CVSROOT/kernel/fs/fsStubs.c:1128-1148 | Two bytes written and one reported |
| `Select.FsSelect` | CVSROOT/kernel/fs/fsSelect.c:423-724 | For every sequence of rounds: the status, the masks of the deciding scan on success with the number of ready streams, and empty masks on a timeout |
| `Select.SelectEnds` | CVSROOT/kernel/fs/fsSelect.c:545-694 | How the rounds end: a time-out comes before what the streams say, a stream in trouble before one that is ready, that before a signal, and the first round with any of them decides |
| `Select.Scan` | CVSROOT/kernel/fs/fsSelect.c:577-661 | A scan computes the answer of every polled stream and counts the streams that have one |
| `Select.ScanBits` | CVSROOT/kernel/fs/fsSelect.c:596-648 | One row: answers, count, or the status of the first stream in trouble |
| `Select.ClearMasks` | CVSROOT/kernel/fs/fsSelect.c:696-708 | Every output row is empty |
| `SelectSpec.OutBitsMean` | CVSROOT/kernel/fs/fsSelect.c:616-644 | Of a polled open stream, the read and write bits come back exactly when they were asked for, the stream is open in that mode and it is ready, and the except bit exactly when it was asked for and is ready; no bit comes back of any other stream |
| `SelectSpec.NumReadyCounts` | CVSROOT/kernel/fs/fsSelect.c:616-661 | The number of ready streams is the number of streams that have some bit in the output masks |
| `SelectSpec.AllAskedArePolled` | CVSROOT/kernel/fs/fsSelect.c:577-649 | Every selected stream up to numStreams is polled |
| `SelectSpec.PolledExactly` | CVSROOT/kernel/fs/fsSelect.c:577-649 | The scan polls exactly the selected streams up to numStreams if and only if every selected stream beyond numStreams lies further beyond it than the empty rows before the stream have bits |
| `SelectSpec.PolledWhenDense` | CVSROOT/kernel/fs/fsSelect.c:577-649 | So it does whenever every row but the last selects something |
| `SelectSpec.EmptyRowsLetMoreBePolled` | CVSROOT/kernel/fs/fsSelect.c:591-649 | An empty row 0 makes stream 32 be polled with numStreams 0 |
| `SelectSpec.ScanSucceeds` | CVSROOT/kernel/fs/fsSelect.c:608-638 | A scan succeeds if and only if every polled stream is open and its select routine succeeds |
| `SelectSpec.ScanFails` | CVSROOT/kernel/fs/fsSelect.c:608-638 | Otherwise it fails with the status of the first polled stream, in the order of their numbers, that is not open or whose select routine fails |
| `SelectTimeout.TimeoutAlwaysWakes` | CVSROOT/kernel/fs/fsSelect.c:553-567 | No interleaving leaves the process asleep after TimeoutProc if and only if the token is taken before the flag is tested or wake-ups ignore tokens |
| `SelectTimeout.SelectIsWoken` | CVSROOT/kernel/fs/fsSelect.c:745-754 | So Fs_Select, as it is, never sleeps past its time, and has returned once its process has taken four more steps |
| `SelectTimeout.TimeRunsOutBetween` | CVSROOT/kernel/fs/fsSelect.c:553-567 | A time-out between the token and the test of the flag is found by a loop that takes the token first, and missed by one that tests first |
| `SelectTimeout.WaitsForWakeup` | CVSROOT/kernel/fs/fsSelect.c:669-680 | A wait sleeps unless a wake-up has come since the last one; a wake-up is used up and sends the process round the loop again |
| `SelectTimeout.TimeoutEndsSelect` | CVSROOT/kernel/fs/fsSelect.c:545-754 | For either order and either wake-up: the select is over four steps of its process after TimeoutProc returns, whatever else happens, or else no number of steps is enough; which of the two is decided by the same condition |
| `SelectTimeout.MissedWakeup` | CVSROOT/kernel/fs/fsSelect.c:553-567 | With the two swapped and tokens checked, there is a run that sleeps on |
| `RawBlockDev.RawBlockDevice.Read` | CVSROOT/kernel/dev/devRawBlockDev.c:140-192 | The front of the buffer is the device's bytes up to where the transfer stopped, and what was moved plus the length left is constant; the status, length and pieces for every sequence of replies |
| `RawBlockDev.RawBlockDevice.Write` | CVSROOT/kernel/dev/devRawBlockDev.c:208-255 | The device is laid over once with exactly the bytes moved; a write of nothing succeeds where a read of nothing fails |
| `RawBlockSpec.TransferTiles` | CVSROOT/kernel/dev/devRawBlockDev.c:168-191 | The pieces lie end to end, and without an early stop everything is moved |
| `RawBlockSpec.ReportedIsMoved` | CVSROOT/kernel/dev/devRawBlockDev.c:182-189 | The length reported is the length moved if and only if no reply fails or is short for its piece, or the first one does |
| `RawBlockSpec.StopsWith` | CVSROOT/kernel/dev/devRawBlockDev.c:168-191 | A transfer that reply k is the first to stop: its status is that reply's, k whole pieces and a part of the next have moved, and only that part is reported |
| `RawBlockSpec.SecondPieceFails` | CVSROOT/kernel/dev/devRawBlockDev.c:182-189 | 1024 bytes moved and 512 reported |
| `RawBlockSpec.PieceIsTold` | CVSROOT/kernel/dev/devSCSIDisk.c:943-969 | Every piece of a transfer in whole sectors means, to the disk, its own sectors clipped to the partition and relocated |
| `ScsiDisk.BlockIO` | CVSROOT/kernel/dev/devSCSIDisk.c:924-971 | Which requests are done at once, cannot be sent, or are sent, and what the command decodes to |
| `ScsiDisk.SendCmd` | CVSROOT/kernel/dev/devSCSIDisk.c:487-549 | The command decodes to the operation, unit, address and count; more than 256 sectors up to address 0x1fffff, and more than 65535 beyond it, are refused |
| `ScsiDisk.Group0Cmd` | CVSROOT/kernel/dev/devSCSI.c:229-262 | The six bytes, which decode to the arguments, a count of 0 or 256 meaning 256 |
| `ScsiDisk.ExtendedCmd` | CVSROOT/kernel/dev/devSCSIDisk.c:515-532 | The ten bytes, which decode to the arguments |
| `ScsiDisk.ToldIsAsked` | CVSROOT/kernel/dev/devSCSIDisk.c:943-969 | The disk is told the clipped, relocated request if and only if the request is not empty, or is past sector 0 and beyond the six-byte command; a non-empty one stays in the partition |
| `ScsiDisk.EmptyRequestLeavesPartition` | CVSROOT/kernel/dev/devSCSIDisk.c:943-969 | An empty request near the end of a partition tells the disk to go past it |
| `ScsiDisk.LengthIsClipped` | CVSROOT/kernel/dev/devSCSIDisk.c:956-962 | The unsigned comparison clips every request but the empty one at sector 0 |
| `SyslogSpec.EnqueuesExactly` | CVSROOT/kernel/dev/devSyslog.c:256-308 | A write enqueues its bytes, whatever they are, if and only if it is not entered wrapped with room left |
| `SyslogSpec.WriteCounts` | CVSROOT/kernel/dev/devSyslog.c:256-308 | In every state a write stores as much as there is room for; the console gets the rest exactly when the log was full or its oldest byte lies at the start of the buffer, and otherwise the rest is lost |
| `SyslogSpec.OverwritesOldest` | CVSROOT/kernel/dev/devSyslog.c:304-305 | A write entered wrapped with room left overwrites the byte at the start of the buffer, which is in the log |
| `SyslogSpec.ReadTakes` | CVSROOT/kernel/dev/devSyslog.c:155-204 | A read takes the oldest bytes, as many as were asked for and are there |
| `SyslogSpec.StepIsQueue` | CVSROOT/kernel/dev/devSyslog.c:155-308 | A read or a write that misplaces nothing is a step of a bounded queue of 8192 bytes |
| `SyslogSpec.FirstInFirstOut` | CVSROOT/kernel/dev/devSyslog.c:155-308 | First in, first out, over every run without such a write |
| `Syslog.SyslogDevice.Read` | CVSROOT/kernel/dev/devSyslog.c:155-204 | The two-part copy of the wrapped buffer does what the specification says; FS_WOULD_BLOCK exactly when empty; the next overflow is announced again |
| `Syslog.SyslogDevice.Write` | CVSROOT/kernel/dev/devSyslog.c:226-317 | The length reported is bytes stored plus bytes printed; with the log closed or disabled, the whole length. The first overflow since the last read is announced ahead of the bytes printed, and the reader is notified of every write to its open log |
| `Syslog.SyslogDevice.Close` | CVSROOT/kernel/dev/devSyslog.c:370-407 | What has not been read goes to the console in order, and the log is empty |

## Left out

- Concurrency between system calls: each call on the stream tables is one step. The kernel locks its
  handles one at a time, and those locks are not modelled.
- Fs_PageCopy: a retry loop around page reads and writes whose statement would repeat its body.
- User-space copy faults, except the failed copy-out of the IDs of an open and of a pipe.
- Negative byte counts handed to getdents, getdirentries and writev pieces.
- The virtual memory manager's cleanup of shared segments, statistics, debugging output and panics.
- The DEV_TTY_OVERFLOWED bit, which interrupt and process code change without a lock, and the inputProc of
  a terminal that has one.
- The fairness of device queues whose insert procedure reorders elements, beyond conservation.
- Signals other than as the interruption of a wait; SIGPIPE is not delivered.
- The time left that Fs_Select returns, and copying its masks in and out.
- The retry and statistics side of SCSI disks, labels, sense data, tapes and robots.
- Terminal, socket and graphics calls, path-name calls, attributes, and mounting.
- Reopening and recovery of streams, and streams that migrate while shared.
- StreamIO.Stream.Read: does not say where a device or pipe keeps its place, only that the bytes come from
  the offset the parameter block names.
- SelectSpec.ScanSucceeds: says nothing about what a failed scan leaves in the output masks.
