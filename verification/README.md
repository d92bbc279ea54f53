# Verification of NGAS protocols and data structures

NGAS (Next Generation Archive System) stores files of observatories on a cluster of archive servers.
This project models six of its components in Dafny and proves what they are for:

1. the archive clients' queue protocol: a ring of name buffers, two DBMs and a counter, shared by
   scheduling callers, archive workers, a reporting thread and a shutdown that drains both queues;
   and where the plain C client leaves its files;
2. the relay that carries HTTP over UDT: header printer and parser with their limits, the loops over
   sockets that move any partial amount, and the streaming of an archive request;
3. the container hierarchy kept in two relational tables, and the reader that rebuilds it as objects;
4. the rewriting of SQL templates into driver parameter styles (PEP 249, `paramstyle`), a query built
   from optional filters, and the interning of server lists;
5. the C client's registry of server lists with cyclic failover, and its percent-encoding
   (section 2.1 of RFC 3986);
6. a counted persistent map with batched writing and a resumable scan, and the cluster dump built on it.

Code that updates state in place is modelled by classes and loops, each method proved against a
function of the old state; the whole-run statements are lemmas about state machines whose steps are
those functions. A section under one mutex is one step. Operations of the system that may fail
(renames, removals, socket transfers, replies) are parameters, and every result of them is covered.

| file | module | contents |
|---|---|---|
| ArchiveQueue.dfy | ArchiveQueue | ring, DBMs and counter of both clients |
| ArchiveScan.dfy | ArchiveScan | the scan of the queue directory |
| ArchiveProtocol.dfy | ArchiveProtocol | workers, reporting thread, callers and shutdown, all interleavings |
| ArchiveRuns.dfy, ArchiveProgress.dfy | ArchiveRuns, ArchiveProgress | what runs do, told from their events; that they can always finish |
| ArchivePosts.dfy | ArchivePosts | the ring of posts to the monitor and control system |
| FileDisposition.dfy, FileOutcomes.dfy | FileDisposition, FileOutcomes | queue, archived, bad or deleted: what happens to each file; the outcomes by the texts of the replies |
| HttpHeader.dfy, HttpRelay.dfy | HttpHeader, HttpRelay | header text; sockets, packets and the relay |
| Containers.dfy, ContainerTree.dfy | Containers, ContainerTree | tables with their forest invariant; the object tree |
| SqlPrepare.dfy, SqlWritten.dfy, SqlTemplates.dfy, SummaryQuery.dfy | the same names | parameter styles; indexed and automatic templates; the File Summary 1 query |
| ServerLists.dfy, PythonLiterals.dfy, ServerListRuns.dfy | the same names | canonical server lists and their table; reading what repr() writes; sequences of interning calls |
| Failover.dfy, FailoverRuns.dfy | Failover, FailoverRuns | the registry and one request; concurrent requests |
| UrlEncode.dfy | UrlEncode | percent-encoding |
| Dbm.dfy, DbmDump.dfy | Dbm, DbmDump | the counted map; the cluster dump |
| Optional.dfy, Orders.dfy, Text.dfy | the same names | options, orders, numerals, sorting, joining and splitting |

## Where the code and its own description differ

The model follows the code. These differences are stated by lemmas.

- `dumpFileInfoCluster` says that `<File Key>__COUNTER` entries are skipped by `getNext()`. They are
  not: only keys that begin with `__` are (`DbmDump.CountKeysAreScanned`).
- `addIncKey` generates a key from the number of elements, so after the removal of any key but the last
  it comes to overwrite one (`Dbm.NeverOverwritesIff`, `Dbm.RemovalOverwritesIff`,
  `Dbm.RemovalLeadsToOverwriting`).
- `cleanSrvList` goes through `str(list)`, which doubles backslashes and spells out control characters,
  and `addSrvList` cleans a second time. For such a list the lookup does not find what it has just
  stored, so from an empty table each call gives it a new ID; and the list shares an ID with its clean form, which names
  different servers: one backslash is interned as the list of two (`ServerLists.CleanIsCanonicalIff`,
  `ServerLists.CleanIdempotentIff`, `ServerListRuns.InternsIffApart`, `ServerListRuns.AskedTwiceIff`,
  `ServerListRuns.CollidesIff`, `ServerListRuns.BackslashesCollide`).
- `cleanSrvList` also deletes every single quote, so lists with single quotes can share a clean form and
  name different servers (`ServerListRuns.QuotesCollide`).
- A hole followed by a name character, or a literal that reads as a marker, changes meaning under the
  named parameter style (`SqlPrepare.NamedExact`).
- The reporting thread can miss its wake-up at shutdown, since it is signalled under another mutex
  (`ArchiveProtocol.SenderMissesWakeUpIff`, `ArchiveProtocol.SenderCanMissWakeUp`).
- A `|` in a file name shifts the fields the reporting thread reads (`ArchivePosts.PostFieldsIff`).
- A printed header line has one character more than the stored one, so a header can be accepted and
  then not be readable again (`HttpHeader.ReparseIff`, `HttpHeader.AcceptedButNotReparsed`).
- Without arguments a query has its percent signs doubled under the printf styles, although nothing will
  be bound that undoes it (`SqlPrepare.SentAsIsIff`).
- A content length of 2 GB and more is truncated on its way to the receive loop
  (`HttpRelay.PacketRoundTripIff`).
- A rename in the file disposition overwrites an existing target, and a document that could not be saved
  leaves an older one under its name in force; a run from an empty archive comes to each
  (`FileDisposition.MoveKeepsIff`, `FileDisposition.OverwriteLosesAFile`,
  `FileDisposition.ForeignDocRemoves`, `FileDisposition.ForeignDocIsMet`).

## Model

| member | source | states |
|---|---|---|
| ArchiveQueue.RingTests | src/ngamsCClient/MWA_ngamsArchiveClient.cpp:496-503 | the test of the next slot tells "pending" and "room" correctly also when both indexes are equal, empty or full |
| ArchiveQueue.StoreAppends | src/ngamsCClient/ngamsArchiveClient.c:320-336 | storing at the next write index appends to the FIFO the ring stands for, every other slot staying free |
| ArchiveQueue.DropRemovesHead | src/ngamsCClient/ngamsArchiveClient.c:352-397 | clearing the next read slot removes the oldest name, across the wrap-around |
| ArchiveQueue.RingIsFunctional | src/ngamsCClient/ngamsArchiveClient.h:51 | the slots and indexes determine the queue: no ring stands for two different ones |
| ArchiveQueue.CountIsPendingPlusProcessing | src/ngamsCClient/ngamsArchiveClient.c:336-426 | the counter is the number of pending names plus the number being processed |
| ArchiveQueue.PutEntryAppends | src/ngamsCClient/ngamsArchiveClient.c:305-341 | a new name is appended in ring, DBM and counter at once, and they stay consistent |
| ArchiveQueue.TakeEntryRemovesHead | src/ngamsCClient/ngamsArchiveClient.c:347-402 | taking moves the oldest name from the queue DBM to the processing DBM, where it was not before |
| ArchiveQueue.DeleteEntryReleases | src/ngamsCClient/ngamsArchiveClient.c:407-431 | deleting removes exactly that key from the processing DBM and keeps the rest consistent |
| ArchiveQueue.PutEntryConsistentIff | src/ngamsCClient/ngamsArchiveClient.c:305-341 | an enqueue leaves the five redundant pieces in agreement exactly when the name is known, too long, or non-empty with a slot free (the code never tests for a full ring), and it fails exactly for an unknown name of 256 characters or more |
| ArchiveQueue.ArchiveRegistry.PutEntryInQ | src/ngamsCClient/ngamsArchiveClient.c:305-341 | the array update and the DBM update do exactly what the specification of an enqueue says |
| ArchiveQueue.ArchiveRegistry.GetNextEntryFromQ | src/ngamsCClient/ngamsArchiveClient.c:347-402 | likewise for taking the next name, "" when none is pending |
| ArchiveQueue.ArchiveRegistry.DeleteEntryFromQ | src/ngamsCClient/ngamsArchiveClient.c:407-431 | likewise for releasing a name |
| ArchiveScan.ScanSchedules | src/ngamsCClient/ngamsArchiveClient.c:766-809 | while slots are free, a scan appends exactly the visible, unknown paths, each once, in directory order, up to the first that does not fit |
| ArchiveScan.ScanCovers | src/ngamsCClient/ngamsArchiveClient.c:778-803 | a scan that succeeds leaves every visible file queued or in processing |
| ArchiveScan.ScanKnows | src/ngamsCClient/ngamsArchiveClient.c:778-803 | after a scan that succeeds the known files are those known before and those of the directory whose names do not begin with a dot, and no others |
| ArchiveScan.ScanSucceedsIff | src/ngamsCClient/ngamsArchiveClient.c:778-803 | a scan fails exactly when the path of a visible file has 256 characters or more |
| ArchiveScan.ScanTwice | src/ngamsCClient/ngamsArchiveClient.c:788-798 | a second scan of the same directory schedules nothing |
| ArchiveScan.ScanKeepsFifo | src/ngamsCClient/ngamsArchiveClient.c:778-800 | however archive threads take and release names between the visits of a scan, the names they get are the first of those pending and then accepted, in this order, and ring, DBMs and counter agree on exactly the rest |
| ArchiveScan.VisitedUntilReleased | src/ngamsCClient/ngamsArchiveClient.c:788-798 | a visible file the scan has visited is queued or in processing from then on until it is released, whatever comes in between |
| ArchiveScan.ScanIsVisits | src/ngamsCClient/ngamsArchiveClient.c:778-803 | a scan that succeeds and is left alone is the sequence of its visits |
| ArchiveScan.CheckArchiveQueue | src/ngamsCClient/ngamsArchiveClient.c:766-809 | the directory loop leaves the registry the specification of a scan says, and its status; a directory that cannot be opened changes nothing |
| ArchiveProtocol.RingRefinesFifo | src/ngamsCClient/MWA_ngamsArchiveClient.cpp:332-429 | in every reachable state the ring holds exactly the names accepted and not yet taken, in arrival order, and the queue DBM has exactly those keys |
| ArchiveProtocol.MutualExclusion | src/ngamsCClient/MWA_ngamsArchiveClient.cpp:729-810 | in every reachable state the DBMs are disjoint, the counter is the sum of their sizes, every processing key belongs to exactly one worker, and a closing worker finds its key |
| ArchiveProtocol.NoLostWakeUp | src/ngamsCClient/MWA_ngamsArchiveClient.cpp:704-722 | a worker that sleeps un-notified has nothing to take, and after the broadcast no worker sleeps; likewise for the waits of the main thread and the sender |
| ArchiveProtocol.WorkersExit | src/ngamsCClient/MWA_ngamsArchiveClient.cpp:1613-1626 | in every run from the broadcast on, a worker takes at most as many steps as it has left, at most four, and has exited once it has taken them |
| ArchiveProtocol.GracefulShutdownIsComplete | src/ngamsCClient/MWA_ngamsArchiveClient.cpp:1589-1611 | in every interleaving without new scheduling after the call, once the flag is set each accepted file was archived once per acceptance, each result reported and each accepted post sent in order; with one stream all in acceptance order |
| ArchiveRuns.ScheduledIsArchived | src/ngamsCClient/MWA_ngamsArchiveClient.cpp:1589-1611 | told from the events alone: after a graceful shutdown with no later scheduling the archived files are exactly those with a Schedule event and fewer than 256 characters, each as often as it was admitted, with one worker in that order; exactly what ngamsArchiveFile returned was reported, and every report that fits was sent, in order |
| ArchiveRuns.ScheduledIsKnown | src/ngamsCClient/MWA_ngamsArchiveClient.cpp:1131-1161 | scheduling a name that fits puts it into the queue DBM and counts it unless it is queued or being processed already, and changes no other key |
| ArchiveRuns.WorkersFetchInOrder | src/ngamsCClient/MWA_ngamsArchiveClient.cpp:729-765 | the workers get the admitted names in the order of their Schedule events, and ring and queue DBM hold exactly the rest |
| ArchiveRuns.HistoryIsRun | src/ngamsCClient/MWA_ngamsArchiveClient.cpp:553-818 | the history fields of a state are what the events before it did: names admitted, names fetched from the ring, results returned, results reported, posts sent |
| ArchiveRuns.ReturnedAreResults | src/ngamsCClient/MWA_ngamsArchiveClient.cpp:765-784 | sizes and statuses go into the reports as the events gave them, none changed, left out or added |
| ArchiveRuns.AcceptedAre | src/ngamsCClient/MWA_ngamsArchiveClient.cpp:669-686 | the posts accepted are those of the reports whose text is shorter than 256 characters |
| ArchiveRuns.BaseNameIs | src/ngamsCClient/MWA_ngamsArchiveClient.cpp:192-212 | the base name has no slash and is what stands behind the last one |
| ArchiveProgress.EveryRunCanFinish | src/ngamsCClient/MWA_ngamsArchiveClient.cpp:553-818 | no deadlock: with at least one stream, every reachable state that was not told to stop has a continuation, without new scheduling, in which the threads finish all work and the graceful shutdown completes |
| ArchiveProgress.RunEndsWhenTold | src/ngamsCClient/MWA_ngamsArchiveClient.cpp:704-722 | in every run no thread ends before the flag is set, none is lost, and the main thread never goes back to an earlier phase |
| ArchiveProgress.SchedulableIff | src/ngamsCClient/MWA_ngamsArchiveClient.cpp:1137-1160 | scheduling is possible exactly for a known or too long name, or a proper one while fewer than 4096 are pending |
| ArchiveProgress.SenderExits | src/ngamsCClient/MWA_ngamsArchiveClient.cpp:561-600 | a reporting thread that has not missed the broadcast exits after at most three more steps of its own |
| ArchiveProtocol.InvStep | src/ngamsCClient/MWA_ngamsArchiveClient.cpp:553-818 | every step of every thread keeps the invariant that ties rings, DBMs, counters, workers, history and waits together |
| ArchiveProtocol.RunDrains | src/ngamsCClient/MWA_ngamsArchiveClient.cpp:1598-1608 | once a waiting loop of the shutdown is over, its counter stays zero |
| ArchiveProtocol.OwnerMove | src/ngamsCClient/MWA_ngamsArchiveClient.cpp:740-796 | a worker's step keeps the one-owner-per-key relation |
| ArchiveProtocol.TakenMove | src/ngamsCClient/MWA_ngamsArchiveClient.cpp:729-765 | every taken file stays either archived or in the hands of one worker, with multiplicity |
| ArchiveProtocol.OfferKeepsPosts | src/ngamsCClient/MWA_ngamsArchiveClient.cpp:669-686 | a report that fits its buffer is appended to the post ring and counted, one that does not is dropped and not counted |
| ArchiveProtocol.DropKeepsPosts | src/ngamsCClient/MWA_ngamsArchiveClient.cpp:582-591 | taking a post removes the oldest one, still counted until it is sent |
| ArchiveProtocol.SenderMissesWakeUpIff | src/ngamsCClient/MWA_ngamsArchiveClient.cpp:1614-1621 | the sender can sleep on after the shutdown broadcast exactly when the broadcast falls between its check and its wait |
| ArchiveProtocol.SenderCanMissWakeUp | src/ngamsCClient/MWA_ngamsArchiveClient.cpp:1595-1621 | runs from the start, one for each kind of shutdown, that end with the main thread joining a sender that sleeps |
| ArchivePosts.PostFieldsIff | src/ngamsCClient/MWA_ngamsArchiveClient.cpp:607-617 | the sender recovers URI, size and status from a post exactly when the file's base name has no vertical bar |
| ArchivePosts.PostQueue.ScheduleSendToMC | src/ngamsCClient/MWA_ngamsArchiveClient.cpp:669-686 | stores at the next write index and counts, or refuses a post of 256 characters and more, changing nothing |
| ArchivePosts.PostQueue.TakePost | src/ngamsCClient/MWA_ngamsArchiveClient.cpp:562-591 | takes the oldest post and frees its slot without touching the counter, or leaves all as it was |
| ArchivePosts.PostQueue.SenderTurn | src/ngamsCClient/MWA_ngamsArchiveClient.cpp:561-661 | a whole turn: the counter goes down by one exactly when a post was taken and sent |
| FileDisposition.NoFileIsLost | src/ngamsCClient/ngamsArchiveClient.c:862-1108 | over any run whose moves are harmless every file is in exactly one place or gone, and gone only after a success of its own request with immediate clean-up or a check, answered NGAMS_INFO_FILE_OK, of the File ID and version in the document that came with its own reply |
| FileDisposition.GoneIsSecured | src/ngamsCClient/ngamsArchiveClient.c:862-1108 | the same about the events: a file that is gone has in its run its own successful request with immediate clean-up, or its own move on a reply with a document and a clean-up turn of its own in which the archive answered NGAMS_INFO_FILE_OK to just that document's File ID and version |
| FileDisposition.RunKeepsIff | src/ngamsCClient/ngamsArchiveClient.c:714-1108 | a run keeps its files accounted for and each document with its own file throughout, if and only if each of its moves is harmless |
| FileDisposition.MoveKeepsFilesIff | src/ngamsCClient/ngamsArchiveClient.c:714-752 | a completed move keeps every file exactly when neither of the two names it writes belongs to another file |
| FileDisposition.MoveKeepsIff | src/ngamsCClient/ngamsArchiveClient.c:714-752 | a move, at whichever operation it breaks off, keeps files and documents in order exactly when the names it writes hold nothing that is needed: no file without evidence, no foreign document left beside it, no file's document overwritten by it |
| FileDisposition.MoveKeepsDocsIff | src/ngamsCClient/ngamsArchiveClient.c:735-751 | the document half of this: exactly when every document still stands beside its own file |
| FileDisposition.OverwriteLosesAFile | src/ngamsCClient/ngamsArchiveClient.c:721-742 | a run in which two files of one name, moved with one time stamp, leave the first nowhere and without evidence |
| FileDisposition.ForeignDocRemoves | src/ngamsCClient/ngamsArchiveClient.c:1015-1098 | a file beside a document that is not its own can be removed on the File ID and version of another |
| FileDisposition.ForeignDocIsMet | src/ngamsCClient/ngamsArchiveClient.c:714-1098 | a run from an empty archive in which a failed removal leaves a document and a failed save puts the next file beside it, so that the next clean-up removes that file without any evidence for it |
| FileDisposition.RemoveKeeps | src/ngamsCClient/ngamsArchiveClient.c:917-938 | rename and remove, whichever of them fails, lose no file without evidence |
| FileDisposition.CleanKeeps | src/ngamsCClient/ngamsArchiveClient.c:977-1108 | a clean-up turn removes a file only when a check of its own document, by File ID and version, was sent and answered NGAMS_INFO_FILE_OK |
| FileDisposition.ArchiveClient.MoveFile2StatDir | src/ngamsCClient/ngamsArchiveClient.c:714-752 | length checks, rename and document in that order, each failure leaving the state the specification says |
| FileDisposition.ArchiveClient.ArchiveFile | src/ngamsCClient/ngamsArchiveClient.c:812-956 | the dispatch on the reply (bad, buffered, other error, success with or without clean-up) and whether the entry is released |
| FileDisposition.ArchiveClient.CleanUpEntry | src/ngamsCClient/ngamsArchiveClient.c:979-1107 | one entry: skipped, kept, removed, or the pass given up, in the order of the code's tests |
| FileDisposition.ArchiveClient.CleanUpArchivedFiles | src/ngamsCClient/ngamsArchiveClient.c:959-1116 | the pass over the directory, ending at the first entry that cannot be read |
| FileOutcomes.AttemptDisposes | src/ngamsCClient/ngamsArchiveClient.c:865-952 | by the texts of the reply: an unsuccessful one that mentions NGAMS_ER_DAPI_BAD_FILE or NGAMS_ER_UNKNOWN_MIME_TYPE1 takes the file to the Bad Files Directory, one that mentions NGAMS_WA_BUF_DATA to the Archived Files Directory, any other leaves it; a success keeps it there or removes it; with the exact names, document, released entry, and nothing else changed |
| FileOutcomes.PassRemovesConfirmed | src/ngamsCClient/ngamsArchiveClient.c:977-1108 | a clean-up pass removes an archived file exactly when it is due, its document names it, the archive answers NGAMS_INFO_FILE_OK and no entry up to it halts the pass: young and doubtful entries do not |
| FileOutcomes.PassEndsIff | src/ngamsCClient/ngamsArchiveClient.c:977-1116 | a pass succeeds exactly when no entry has a name that is too long, lacks its document, or is due with an unreadable one |
| FileOutcomes.ContainsIff | src/ngamsCClient/ngamsArchiveClient.c:874-889 | the search for a text finds it exactly where it stands in the message |
| HttpHeader.HeaderRoundTripIff | src/ngamsUDT/ngamsUDTUtils.cpp:49-135 | a printed header is read back as the same map and the status with its CR, consuming exactly the printed bytes, if and only if there are at most 99 fields and every line is under 16384 characters |
| HttpHeader.ReparseIff | src/ngamsUDT/ngamsUDTReceiver.cpp:137-165 | a header that was read and is printed again reads as the same map exactly when its lines leave room for the added CR; request lines of at most 16382 characters do |
| HttpHeader.AcceptedButNotReparsed | src/ngamsUDT/ngamsUDTUtils.cpp:68-135 | requests the reader accepts and whose reprinted header it refuses: a field line of 16383 characters ended by a bare LF |
| HttpHeader.ParseYields | src/ngamsUDT/ngamsUDTUtils.cpp:68-135 | whatever is read has lower-case keys, values the printer can print, at most 99 fields and bounded lines |
| HttpHeader.ReadNamesAreLower | src/ngamsUDT/ngamsUDTUtils.cpp:124-127 | no field name of a header that was read has a character from A to Z |
| HttpHeader.AnyCaseReadsAlike | src/ngamsUDT/ngamsUDTUtils.cpp:68-135 | a request with field names in any mix of upper and lower case, lines with or without CR, reads as one map of lower-case names, of several fields of one name the last |
| HttpRelay.Connection.ReliableRecv | src/ngamsUDT/ngamsUDTUtils.cpp:266-298 | for every schedule of partial transfers exactly the requested bytes in order, or all there were and an error |
| HttpRelay.Connection.ReliableWrite | src/ngamsUDT/ngamsUDTUtils.cpp:228-263 | all bytes in order, or a strict prefix and an error |
| HttpRelay.Connection.Readline | src/ngamsUDT/ngamsUDTUtils.cpp:27-46 | the line, its overlength or the broken stream depend on the bytes alone, not on how they arrive |
| HttpRelay.Connection.ReadHTTPHeader | src/ngamsUDT/ngamsUDTUtils.cpp:68-135 | the parsed header and what is left of the stream are a function of the bytes; otherwise -1 |
| HttpRelay.HTTPHeaderToString | src/ngamsUDT/ngamsUDTUtils.cpp:49-65 | the text of the header, fields in key order, ending with the blank line |
| HttpRelay.ReadHTTPPacket | src/ngamsUDT/ngamsUDTUtils.cpp:161-199 | the packet or the kind of failure is a function of the concatenated stream |
| HttpRelay.WriteHTTPPacket | src/ngamsUDT/ngamsUDTUtils.cpp:137-159 | success exactly when header and payload fit, and then exactly these bytes were sent; otherwise a strict prefix |
| HttpRelay.PacketRoundTripIff | src/ngamsUDT/ngamsUDTUtils.cpp:137-199 | a packet whose content-length is the decimal size of its payload is read back as written exactly when that size is below 2 GB, since it passes through an int |
| HttpRelay.StrToUMaxOfDecimal | src/ngamsUDT/ngamsUDTUtils.cpp:179 | the numeral conversion reads back every printed 64-bit size |
| HttpRelay.StrToUMaxIs | src/ngamsUDT/ngamsUDTUtils.cpp:179-180 | the conversion skips spaces, honours a sign, reads digits up to the first other character, wraps a negative number, and sets ERANGE exactly from 2 to the power of 64 on |
| HttpRelay.ToInt32Is | src/ngamsUDT/ngamsUDTUtils.cpp:190 | a size passed as an int is the number in the int's range that agrees with it modulo 2 to the power of 32 |
| HttpRelay.RedirectUDT | src/ngamsUDT/ngamsUDTReceiver.cpp:94-127 | on success the next bytes of the client's stream, unchanged, of length in [filesize, filesize + 64000); on failure a prefix, because the client or NGAS ended |
| HttpRelay.ReadRequest | src/ngamsUDT/ngamsUDTReceiver.cpp:137-161 | which requests are refused and why, as a function of the bytes |
| HttpRelay.RecvFile | src/ngamsUDT/ngamsUDTReceiver.cpp:130-230 | the outcome is decided by the bytes and the room there is: each kind of failure happens only for its own cause, in the code's order, and NGAS never gets anything but a prefix of the reprinted header and the stream; on success it got the header and the unmodified stream, and the client NGAS's reply; a refused request sends nothing anywhere |
| HttpRelay.RelaySucceeds | src/ngamsUDT/ngamsUDTReceiver.cpp:176-222 | with the bytes and the room it needs and a reply that can be read and returned, a relay cannot fail |
| HttpRelay.WellFormedIsRelayed | src/ngamsUDT/ngamsUDTReceiver.cpp:130-230 | end to end: a client's printed header within the limits and at least the bytes it announces are accepted and relayed, NGAS gets the same fields and bytes, and the client the printed reply |
| HttpRelay.AcceptedIff | src/ngamsUDT/ngamsUDTReceiver.cpp:135-159 | a request is refused exactly for an unreadable header, a missing length, or a length of zero or of more than 64 bits; otherwise its size is the signed number, whatever spaces and text surround it, wrapped to 64 bits |
| HttpRelay.UnreadablePacketIff | src/ngamsUDT/ngamsUDTUtils.cpp:168-198 | which lengths make a reply unreadable: zero and more than 64 bits, negative as a signed number, or more than the bytes that follow |
| HttpRelay.NgasReadsTheRequest | src/ngamsUDT/ngamsUDTReceiver.cpp:137-200 | for request lines of at most 16382 characters, what NGAS receives parses to the client's field map followed by the client's body |
| Containers.ContainerDb.CreateContainer | src/ngamsCore/ngamsLib/ngamsDbNgasContainers.py:147-203 | the checks and the insertion on the tables, and the error cases, are those of the specification |
| Containers.ContainerDb.DestroySingleContainer | src/ngamsCore/ngamsLib/ngamsDbNgasContainers.py:205-233 | likewise: the check for children, the release of the files and the deletion |
| Containers.CreateSucceedsIff | src/ngamsCore/ngamsLib/ngamsDbNgasContainers.py:167-203 | creation fails exactly for a named parent that is not there, unless said to be known, and for a name a sibling has; it changes nothing then, and otherwise adds the row with the given values and nothing else |
| Containers.CreateKeepsForestIff | src/ngamsCore/ngamsLib/ngamsDbNgasContainers.py:147-203 | creation keeps valid parents, acyclicity, unique sibling names and placed files exactly when "parent known to exist" is not claimed for a missing parent; a failure changes nothing |
| Containers.DestroyKeepsForestIff | src/ngamsCore/ngamsLib/ngamsDbNgasContainers.py:205-233 | destruction keeps the forest exactly when children are checked for or there are none; files of the destroyed container point nowhere afterwards, all others unchanged |
| Containers.RunKeepsForest | src/ngamsCore/ngamsLib/ngamsDbNgasContainers.py:147-233 | every sequence of allowed operations keeps the forest |
| ContainerTree.LatestKeepsMaximal | src/ngamsCore/ngamsLib/ngamsDbNgasContainers.py:129-139 | dropping rows whose file_id equals the previous one keeps exactly one row per file_id, of maximal version |
| ContainerTree.HierarchyIsComplete | src/ngamsCore/ngamsLib/ngamsDbNgasContainers.py:113-145 | the tree read from a forest contains every descendant exactly once and nothing else |
| ContainerTree.HierarchyHasEveryRow | src/ngamsCore/ngamsLib/ngamsDbNgasContainers.py:113-145 | every container below the root is a node with its own row, its own children under it and the latest rows of its own files in the order of their IDs |
| ContainerTree.Container.AddContainer | src/ngamsCore/ngamsLib/ngamsContainer.py:56-58 | appends the very object and links it back, leaving the rest of the tree intact |
| ContainerTree.Read | src/ngamsCore/ngamsLib/ngamsDbNgasContainers.py:86-111 | a fresh container with the row's values and a stub for its parent, None exactly for unknown ids |
| ContainerTree.AddLatestFiles | src/ngamsCore/ngamsLib/ngamsDbNgasContainers.py:124-140 | the loop over the ordered rows leaves the latest row of each file_id, in that order |
| ContainerTree.ReadHierarchy | src/ngamsCore/ngamsLib/ngamsDbNgasContainers.py:113-145 | terminates on every forest; every descendant once, each child's parent link is the object that lists it, latest files only |
| SqlPrepare.PrepareKeepsMeaningIff | src/ngamsCore/ngamsLib/ngamsDbCore.py:816-828 | preparation fails exactly for unusable templates; otherwise driver-side binding equals substitution into the template exactly when the template suits the style |
| SqlWritten.WrittenBindsIff | src/ngamsCore/ngamsLib/ngamsDbCore.py:806-828 | a statement written with holes and doubled braces is refused exactly when it asks for a missing argument; otherwise the driver executes the text with argument i in each place where hole i was written, in any order and however often, exactly when its style carries the template |
| SqlWritten.TokenizeWritten | src/ngamsCore/ngamsLib/ngamsDbCore.py:806-807 | round trip: str.format finds in a written template exactly the characters and hole numbers written |
| SqlWritten.UnreadableTemplates | src/ngamsCore/ngamsLib/ngamsDbCore.py:806-807 | an automatic hole behind a numbered one, and a single brace, make it raise |
| SqlWritten.KeysAreSpelled | src/ngamsCore/ngamsLib/ngamsDbCore.py:809-814 | the mapping styles bind argument i under n and its number, with an at sign for Sybase |
| SqlPrepare.TokenizeEscaped | src/ngamsCore/ngamsLib/ngamsDbCore.py:818-822 | doubling '%' in the text doubles exactly the literal '%' of the template and never touches a hole |
| SqlPrepare.QMarkExact | src/ngamsCore/ngamsLib/ngamsDbCore.py:799 | question marks carry the arguments exactly when no literal '?' occurs and the holes take the arguments in order |
| SqlPrepare.FormatExact | src/ngamsCore/ngamsLib/ngamsDbCore.py:802 | printf markers do exactly when the holes take the arguments in order, literal '%' included |
| SqlPrepare.PyFormatExact | src/ngamsCore/ngamsLib/ngamsDbCore.py:803 | extended printf markers always do, for any order and repetition of holes |
| SqlPrepare.NamedExact | src/ngamsCore/ngamsLib/ngamsDbCore.py:773-801 | named markers do exactly when no name runs on into the text behind it and no literal reads as a marker |
| SqlPrepare.InOrderCarries | src/ngamsCore/ngamsLib/ngamsDbCore.py:787-804 | holes used once each and in order suit every argument list of the positional styles, and for distinct arguments only those |
| SqlPrepare.NamedDataIsKeyed | src/ngamsCore/ngamsLib/ngamsDbCore.py:809-814 | the data to bind has argument i under the i-th key, no key written twice |
| SqlPrepare.SentAsIsIff | src/ngamsCore/ngamsLib/ngamsDbCore.py:816-828 | a query without arguments is sent as it was written exactly unless it has a percent sign and the style is a printf one |
| SqlTemplates.AnyDriverBinds | src/ngamsCore/ngamsLib/ngamsDbCore.py:806-828 | a template of automatic holes and harmless text binds, under every style, to the statement it was made from |
| SqlTemplates.TokensMean | src/ngamsCore/ngamsLib/ngamsDbCore.py:806-807 | automatic holes are numbered 0, 1, ... and take the values in their order |
| SummaryQuery.BuildFileSummary1Query | src/ngamsCore/ngamsLib/ngamsDbJoin.py:372-431 | the loops build exactly the template and the value list of the statement with the clauses of the given filters |
| SummaryQuery.SummarySelectsWanted | src/ngamsCore/ngamsLib/ngamsDbJoin.py:372-431 | for every combination of filters in which one is given, and every driver style, the statement that reaches the database, read as SQL, selects exactly the joined rows that meet all filters given |
| SummaryQuery.SummaryWithoutFilters | src/ngamsCore/ngamsLib/ngamsDbJoin.py:372-431 | with no filter given nothing is bound and the statement, sent as text, selects every joined row; it arrives intact exactly unless the columns have a percent sign and the style is a printf one |
| SummaryQuery.OrderedIff | src/ngamsCore/ngamsLib/ngamsDbJoin.py:428-429 | the statement ends with the ordering by slot and ingestion date exactly when that is asked for |
| SummaryQuery.AppendIn | src/ngamsCore/ngamsLib/ngamsDbJoin.py:404-409 | one placeholder and one value per name, in the same order |
| SummaryQuery.ReadAllWritten | src/ngamsCore/ngamsLib/ngamsDbJoin.py:395-429 | reading the condition text back gives the clauses it was written from, with their values |
| SummaryQuery.ClausesHoldIff | src/ngamsCore/ngamsLib/ngamsDbJoin.py:395-426 | the clauses hold of a row exactly when every given filter does; an absent filter, empty list or empty string does not filter, and a NULL column meets none |
| ServerLists.CleanIsCanonicalIff | src/ngamsCore/ngamsLib/ngamsDbCore.py:421-442 | cleaning gives the sorted servers joined by commas exactly for lists without single quotes, backslashes and control characters |
| ServerLists.CleanIdempotentIff | src/ngamsCore/ngamsLib/ngamsDbCore.py:421-442 | cleaning twice is cleaning once exactly for lists in which nothing is escaped and whose servers stay in order when they lose their quotes |
| ServerLists.StableIffPlain | src/ngamsCore/ngamsLib/ngamsDbCore.py:433-437 | without single quotes these are exactly the lists without backslashes and control characters |
| ServerLists.CleanPermuted | src/ngamsCore/ngamsLib/ngamsDbCore.py:421-442 | lists of the same servers, in any order, have one clean form, whatever characters they contain |
| ServerLists.CleanEqualIff | src/ngamsCore/ngamsLib/ngamsDbCore.py:421-442 | two lists without single quotes have the same clean form exactly when they name the same servers equally often |
| ServerLists.ServersAre | src/ngamsCore/ngamsLib/ngamsDbCore.py:421-436 | a list written with spaces anywhere names the parts between its commas |
| PythonLiterals.ReprReads | src/ngamsCore/ngamsLib/ngamsDbCore.py:437 | every string is read back from its repr(), whatever quotes, backslashes and control characters it has |
| PythonLiterals.ListReads | src/ngamsCore/ngamsLib/ngamsDbCore.py:437 | the text of a list without its brackets reads as the list |
| ServerLists.ServerListTable.GetSrvListFromId | src/ngamsCore/ngamsLib/ngamsDbCore.py:916-930 | the list stored under the ID, None when there is none |
| ServerLists.ServerListTable.AddSrvList | src/ngamsCore/ngamsLib/ngamsDbCore.py:890-913 | the first number drawn that is not in use, stored with the cleaned list |
| ServerLists.ServerListTable.GetSrvListIdFromSrvList | src/ngamsCore/ngamsLib/ngamsDbCore.py:933-948 | the ID of the clean form, allocated when missing |
| ServerListRuns.InternsIffApart | src/ngamsCore/ngamsLib/ngamsDbCore.py:890-948 | over any sequence of calls from an empty table with lists without single quotes: calls get one ID exactly for the same servers, if and only if no list with a backslash or control character is followed by one of its servers or of the servers of its clean form |
| ServerListRuns.PlainListsAreInterned | src/ngamsCore/ngamsLib/ngamsDbCore.py:933-948 | so lists of plain characters always share an ID when permuted and never when they differ |
| ServerListRuns.IdsLookUp | src/ngamsCore/ngamsLib/ngamsDbCore.py:916-948 | after such a run exactly the IDs handed out are found, each with the list its call stored, which is the call's own clean form exactly when that is plain, and then the sorted servers joined by commas |
| ServerListRuns.ReinternedIff | src/ngamsCore/ngamsLib/ngamsDbCore.py:905-948 | on any table without the clean form, asking twice for a list gives one ID exactly when the list is stable |
| ServerListRuns.AskedTwiceIff | src/ngamsCore/ngamsLib/ngamsDbCore.py:933-948 | from an empty table a list without single quotes, asked for twice, gets one ID exactly when it is plain |
| ServerListRuns.CollidesIff | src/ngamsCore/ngamsLib/ngamsDbCore.py:933-948 | such a list and its clean form always share an ID, and name different servers exactly when it is not plain |
| ServerListRuns.BackslashesCollide | src/ngamsCore/ngamsLib/ngamsDbCore.py:437 | the list of one backslash and the list of two: different servers, one ID |
| ServerListRuns.QuotesCollide | src/ngamsCore/ngamsLib/ngamsDbCore.py:433-437 | a server that ends in a single quote and another in double quotes: different servers, one clean form |
| Failover.ParseRoundTrip | src/ngamsCClient/ngamsCClientLib.c:1149-1189 | registering "host:port,..." registers exactly these servers in this order |
| Failover.ParseWithGaps | src/ngamsCClient/ngamsCClientLib.c:1166-1185 | commas in a row and at either end change nothing |
| Failover.MalformedEnds | src/ngamsCClient/ngamsCClientLib.c:1172-1180 | an address without a port ends the parsing with the servers before it |
| Failover.RegisterKeepsOthers | src/ngamsCClient/ngamsCClientLib.c:343-364 | registering replaces the list's own slot or takes a free one, and leaves all other lists as they were |
| Failover.LocateIs | src/ngamsCClient/ngamsCClientLib.c:343-364 | the search finds the list wherever it is, otherwise the first free slot |
| Failover.TriedCycles | src/ngamsCClient/ngamsCClientLib.c:2796-2808 | the servers tried are distinct, in cyclic order from the start, end with the first success, and are all of them when all fail |
| Failover.Registry.GetSrvInfoObj | src/ngamsCClient/ngamsCClientLib.c:343-364 | the loop over the slots computes that search |
| Failover.Registry.ParseSrvListId | src/ngamsCClient/ngamsCClientLib.c:1149-1189 | the slot afterwards, all slots of others untouched, and the status; a malformed address leaves the servers before it |
| Failover.Registry.GetNextSrv | src/ngamsCClient/ngamsCClientLib.c:366-384 | a new request advances the shared index cyclically and takes it, a running one takes the next of its own |
| Failover.Registry.TryServers | src/ngamsCClient/ngamsCClientLib.c:2796-2811 | success exactly when one of the servers answers, the servers tried, and the shared index advanced once |
| Failover.Registry.Request | src/ngamsCClient/ngamsCClientLib.c:2776-2816 | the same for a registered list, failure for an empty one, and the plain status for a host that is no list |
| FailoverRuns.EveryRequestCycles | src/ngamsCClient/ngamsCClientLib.c:3209-3229 | in every interleaving the k-th request to start begins at k mod N whatever the outcomes, visits distinct servers cyclically, stops at the first success and fails exactly after N failures |
| FailoverRuns.PlacesAreUnique | src/ngamsCClient/ngamsCClientLib.c:370-378 | the starts are numbered without gaps, each number belonging to exactly one request |
| FailoverRuns.FirstChoicesAreEven | src/ngamsCClient/ngamsCClientLib.c:371-374 | in every reachable state, of m requests that have started exactly m / N turned to server i first, and one more for i below m mod N |
| FailoverRuns.RequestsAreTold | src/ngamsCClient/ngamsCClientLib.c:3209-3229 | the requests of a run are those opened, each with the outcomes of its own replies, as many visits as it took turns, and the place at which it took its first |
| FailoverRuns.RequestGoesOn | src/ngamsCClient/ngamsCClientLib.c:2796-2811 | a request without a result can always go on, in exactly one way, and one with a result is over |
| UrlEncode.EncodeUrlVal | src/ngamsCClient/ngamsCClientLib.c:4108-4156 | the loop appends the code of each character behind a scheme copied as it stands |
| UrlEncode.EncodedInjective | src/ngamsCClient/ngamsCClientLib.c:4108-4156 | no two values have the same encoding, with and without the scheme flag |
| UrlEncode.ReservedNeverShow | src/ngamsCClient/ngamsCClientLib.c:4122-4155 | no colon, question mark, equals sign, ampersand, asterisk, quote, plus sign, backslash, parenthesis or space is left in encoded text |
| UrlEncode.OthersStand | src/ngamsCClient/ngamsCClientLib.c:4122-4155 | a text is its own encoding exactly when it has none of these and no percent sign |
| UrlEncode.SchemeIsCopied | src/ngamsCClient/ngamsCClientLib.c:4114-4124 | with the flag a leading http:, file: or ftp: is copied and the rest encoded |
| UrlEncode.NothingIsCopied | src/ngamsCClient/ngamsCClientLib.c:4114-4124 | without the flag, or without a scheme, everything is encoded |
| UrlEncode.DecodeEncoded | src/ngamsCClient/ngamsCClientLib.c:4122-4155 | percent-decoding returns the value with '/' for each backslash, hence the value itself exactly when it has none |
| UrlEncode.EncodedLength | src/ngamsCClient/ngamsCClientLib.c:4094-4106 | the encoding is at least as long as the value and at most three times as long |
| Dbm.AddKeepsCountIff | src/ngamsCore/ngamsLib/ngamsDbm.py:157-201 | the stored count stays the number of the other keys, exactly unless the counter's own key is overwritten with another value |
| Dbm.RemKeepsCountIff | src/ngamsCore/ngamsLib/ngamsDbm.py:222-237 | likewise for a removal, exactly for keys other than the counter; an unknown key changes nothing |
| Dbm.NextKeyIsNew | src/ngamsCore/ngamsLib/ngamsDbm.py:203-219 | addIncKey alone gives the keys "1" to "n" to the objects in order and never overwrites |
| Dbm.NeverOverwritesIff | src/ngamsCore/ngamsLib/ngamsDbm.py:203-219 | however often addIncKey is called it never overwrites, exactly when the store has no generated key beyond its count |
| Dbm.ClearAheadIff | src/ngamsCore/ngamsLib/ngamsDbm.py:203-219 | with generated keys only, that is exactly when they are "1" to the count |
| Dbm.RemovalOverwritesIff | src/ngamsCore/ngamsLib/ngamsDbm.py:203-237 | of a store filled by addIncKey the last key, and no other, can be removed without leading to an overwrite |
| Dbm.RemovalLeadsToOverwriting | src/ngamsCore/ngamsLib/ngamsDbm.py:203-237 | two additions and the removal of the first key make the next generated key one in use |
| Dbm.ScanIsCompleteIff | src/ngamsCore/ngamsLib/ngamsDbm.py:316-349 | a loop over getNext sees every key that is not internal exactly when none of them is empty |
| Dbm.ShownOnce | src/ngamsCore/ngamsLib/ngamsDbm.py:241-253 | those are the keys that do not begin with two underscores, each once; the count's own key is never among them |
| Dbm.Dbm.Add | src/ngamsCore/ngamsLib/ngamsDbm.py:173-200 | the new content, when the write goes to disk, and that the unsynchronised additions stay below the limit |
| Dbm.Dbm.AddIncKey | src/ngamsCore/ngamsLib/ngamsDbm.py:204-219 | the object under the number after the count |
| Dbm.Dbm.Rem | src/ngamsCore/ngamsLib/ngamsDbm.py:223-237 | the key gone and the count lowered, or an error and what it leaves behind |
| Dbm.Dbm.Keys | src/ngamsCore/ngamsLib/ngamsDbm.py:241-253 | deleting internal keys from the end of the list leaves the others in their order |
| Dbm.Dbm.GetNext | src/ngamsCore/ngamsLib/ngamsDbm.py:316-349 | the next key that is not internal after the cursor, from the start after an end or an empty key |
| Dbm.Dbm.Scan | src/ngamsCore/ngamsLib/ngamsDbm.py:304-349 | the loop callers write sees the keys in cursor order up to an empty one |
| DbmDump.DumpFileInfo | src/ngamsCore/ngamsLib/ngamsDbJoin.py:721-743 | after the loop each file has its last row and each counter its number of rows, and there is no other key but the count; or the rows are numbered from 1 |
| DbmDump.RowKeepsDump | src/ngamsCore/ngamsLib/ngamsDbJoin.py:727-742 | one more row keeps the DBM the dump of the rows so far: each file with its last row, each counter with its number of rows, and no other key but the count |
| DbmDump.DumpIsUnique | src/ngamsCore/ngamsLib/ngamsDbJoin.py:721-743 | the rows determine the whole content of the DBM: no two differ that are dumps of the same rows |
| DbmDump.DumpReads | src/ngamsCore/ngamsLib/ngamsDbJoin.py:727-742 | under File ID, underscore and version stands the last row of the file, under that with the suffix __COUNTER the number of its rows, each exactly if there is one |
| DbmDump.TimesIsMultiplicity | src/ngamsCore/ngamsLib/ngamsDbJoin.py:730-739 | counting rows by key is counting them by File ID and version |
| DbmDump.FileKeyInjective | src/ngamsCore/ngamsLib/ngamsLib.py:302-319 | a file key determines File ID and version, also when the ID has underscores |
| DbmDump.KeysApart | src/ngamsCore/ngamsLib/ngamsDbJoin.py:734-740 | keys of files, of counters and of the count are never confused |
| DbmDump.CountKeysAreScanned | src/ngamsCore/ngamsLib/ngamsDbJoin.py:690-698 | a counter is hidden from a scan exactly when its file's own entry is, contrary to the description |

## Left out

- Threads, sockets, Berkeley DB, SQL engines, Thrift and the file system themselves: atomic steps, byte streams, finite maps, row sets and directories stand for them.
- DBM operations that fail after a partial update: the code neither rolls back nor retries, and the model has them succeed.
- Enqueuing into a full ring, and an empty name: guards of the run (`ArchiveProtocol.Enabled`), whose necessity `ArchiveQueue.PutEntryConsistentIff` states.
- Names of 256 characters and more in DBM lookups, where the C code copies into fixed buffers; the model's maps compare whole names.
- Clean-up of the MWA client after the threads are joined, its statistics, and its other entry points.
- Liveness of the reporting thread at shutdown: `ArchiveProtocol.SenderMissesWakeUpIff` shows that it does not hold in general.
- Liveness of the C client: an attempt that breaks off leaves its entry in the processing DBM (when, is `FileDisposition.ReleasedIff`); threadRunPermission is never cleared while threads run.
- FileDisposition.NoFileIsLost: holds for runs whose moves are harmless, because rename overwrites and a failed save leaves an older document; `FileDisposition.RunKeepsIff` says that this is the exact condition for the run, and `FileDisposition.MoveKeepsIff` for each move.
- An archive attempt and a clean-up turn as several steps: each is one step of the file model, so what another thread does to the same directories between two of its operations is not covered.
- Two registrations of different server lists at once, which can take the same free slot because the lock is released between the search and the write.
- The overflow of rawURI by a base name of 224 characters and more, which sprintf writes before any length is tested: the model drops such a post as one that does not fit.
- ArchiveScan.ScanCovers: a pass over the directory that is left alone; the interleavings with the archive threads are `ArchiveScan.ScanKeepsFifo` and `ArchiveScan.VisitedUntilReleased`.
- ArchiveScan.ScanSchedules: likewise for a pass that is left alone.
- ArchiveScan.ScanTwice: likewise for two passes with nothing between them.
- Truncated status documents and data files read as status documents: a document that cannot be saved is missing, and a file under a document's name ends the clean-up pass.
- errno as it stood before strtoumax: the model has ERANGE set by this conversion only.
- The numeric parameter style, which is numbered from 0 here.
- SqlPrepare.PrepareKeepsMeaningIff: conversions and format specifications inside a hole, such as `{0!s}` and `{0:>5}`, count as templates that raise, although str.format accepts them and would pad or convert the marker; so do field names other than numbers.
- SQL beyond what the built query uses, string collations other than code points, quoting inside templates, and comments in them: a driver reads every marker of its style.
- Dates given to the query builder as numbers: toiso8601 depends on floating point and the calendar.
- Characters beyond ASCII that repr() escapes, and Python 2 unicode prefixes, in server lists.
- ServerLists.CleanEqualIff: lists with single quotes, for which it does not hold (`ServerListRuns.QuotesCollide`); `ServerLists.CleanPermuted` and `ServerLists.CleanIdempotentIff` hold of them too.
- ServerListRuns.InternsIffApart: likewise for runs with a list that has a single quote.
- Random numbers that never hit a free server list ID; each allocation is given draws that contain one.
- Port numbers as integers: the registry keeps the text behind the colon; host names beyond their buffer and more than 32 servers are not checked by the code either.
- The empty server list ID, which shares a slot with named lists, and lists registered again while requests run on them.
- The clean-up destructor, iteritems, pop and concurrent use of the persistent map; a scan is undisturbed.
- MWA_ngamsCClientLib.cpp (a near copy), command wrappers, configuration, logging, command-line parsing and the Python UDT sender.
