# UnifyFS in Dafny

UnifyFS is a file system in user space: a client appends what is written to a log of its own and
keeps extents that lead from file offsets to log positions. This project models the logic of the
client and of the structures it shares with the server, and proves what that logic keeps over whole
runs. `dafny verify dfyconfig.toml` checks the whole project.

| file | models |
|---|---|
| Extents.dfy | what extents mean, and adding and removing them, on sequences |
| Owners.dfy | in whose log an extent is said to lie |
| RedBlack.dfy | the red-black tree of tree.h, with its parent pointers and colours, over a store of nodes |
| SegTree.dfy | the segment tree: an object that edits that red-black tree in place |
| WriteSync.dfy | writes, truncations and syncs as a state machine, against the last writer wins |
| FileSync.dfy | the same as objects: a file with its two trees, the write index and the server, which refine the state machine |
| Sharing.dfy | two files of a client, which share the write index and the server |
| ReadRequest.dfy | one read request: data messages in any order, completion, and the result |
| Interleave.dfy | a multi-read: the messages of several requests, interleaved, and its end |
| LocalRead.dfy | requests that the client serves from its extents |
| ReadBack.dfy | from a run of writes to the bytes that are read back |
| Mread.dfy | the table of active multi-reads |
| Dispatch.dfy | a list of requests from the call to its results, through all of the above |
| Stdio.dfy | buffered streams: fread, fwrite, fflush, fseek and ungetc against an unbuffered file |
| SlotMap.dfy | the bitmap allocator of log chunks, by bytes and bits |
| FidTable.dfy | file ids, with unlinks that are carried out later |
| Transfer.dfy | copying a file by many ranks |
| Expr.dfy | constant folding in tinyexpr |
| Ini.dfy | printing and parsing the configuration |
| Common.dfy | types that several modules use |

An object of the source that changes its fields is a class here, and the contract of each of its
methods ties the new state to a function of the old one, or to the sequence it stands for. Nodes of
the red-black tree are records in a map from addresses, so that every pointer write of tree.h is a
write to that map.

## Where the code does less than it seems to promise

Each of these has a counterexample or an equivalence among the lemmas below.

- Adding an extent gives its client id to the rest of every extent it cuts, and joins neighbours
  whatever their ids, so ids are exact only among extents of one client (`Owners.OwnersExactly`).
  Trees that hold extents of several clients of a node are filled that way
  (client/src/client_read.c:667-688).
- A sync whose rpc fails has already emptied the pending tree (`WriteSync.FailedSync`,
  `WriteSync.LostWrite`). That lemma takes every write to have its own place in the log, as
  `SlotMap.RunSound` shows of allocations that are live.
- A truncation trims the client's extents before its rpcs; if those fail, the server keeps what was
  truncated (`WriteSync.TruncateExactly`, `WriteSync.LostTruncation`).
- The margin that keeps the write index from overflowing wraps around below two entries
  (`WriteSync.IndexFitsExactly`).
- A stream that has output pending puts further output behind it, and not at the position, which
  differs after ungetc (`Stdio.WriteExactly`, `Stdio.ReadAfterPush`). The comment at
  client/src/unifyfs-stdio.c:721-722 leaves open what push-back bytes mean for a write; section
  7.19.5.3 of C99 forbids that order of calls.
- A seek from the end of a file whose size cannot be had counts from -1 (`Stdio.EndUnknown`).
- A finished read returns old buffer content in a gap between two messages, and, if it is short, in
  one before the first (`ReadRequest.PosixExactly`, `ReadRequest.MiddleGap`).
  client/src/client_read.h:37-41 promises to fill the latter. ENODATA after data replaces the data
  with zeros; the server sends it for extents without data only
  (server/src/unifyfs_fops_rpc.c:319-324).
- An error that arrives before data of the same request leaves bytes read together with the error
  (`Interleave.InTimeExactly`).
- A multi-read that times out reports every request without an error as timed out, also those that
  have completed, because completion without an error sets no code (`Interleave.TimedOutExactly`).
- The space left for a data message is computed in unsigned arithmetic, so that a message which starts
  behind the end of the buffer passes the check and counts as read (`ReadRequest.ReadReq.Receive`,
  `ReadRequest.TooMuchRead`).
- A log of another client that cannot be opened, and a log that gives less than it was asked for, go
  unnoticed: the request is reported as complete (`LocalRead.LocalExactly`).
- The search for free slots does not know that the last byte of the map may be partly outside of it
  (`SlotMap.InsideExactly`). More than eight slots are looked for from the last-used hint on, and so
  can be refused although they are free (`SlotMap.HintCosts`). Of fewer slots, a row over two bytes is
  found only where their longest free runs meet (`SlotMap.RefusedExactly`, `SlotMap.MissedRow`). A
  release of the first slots used updates the hint of the last one instead (`SlotMap.HintTooLow`).
- The table of multi-reads counts as full when its last slot is taken (`Mread.Table.Create`,
  `Mread.RefusesWithRoom`). Removing a multi-read that is not active empties the slot of the one that
  is, and reports failure (`Mread.Table.Remove`).
- Deleting a file with an unlink pending reports failure although the file is deleted
  (`FidTable.Table.Delete`). Metadata are zero at first, so deleting id 0 before there is any file
  succeeds (`FidTable.DeleteNothing`).
- The configuration file is written without escapes and read through a buffer of fixed length, so
  values with spaces around them, comments, newlines, or more length than fits are lost
  (`Ini.TextRoundTripExactly`).

## Model

| member | source | states |
|---|---|---|
| `Extents.AddedLookup` | common/src/seg_tree.c:154-336 | after adding an extent, its offsets lead to its log positions and every other offset leads where it did |
| `Extents.AddedCanonical` | common/src/seg_tree.c:281-329 | adding keeps extents ordered, disjoint and coalesced |
| `Extents.AddedGrowth` | client/src/unifyfs_fid.c:985-990 | one addition makes at most two more extents |
| `Extents.RemovedLookup` | common/src/seg_tree.c:344-414 | after removing a range its offsets lead nowhere and every other offset leads where it did |
| `Extents.RemovedCanonical` | common/src/seg_tree.c:344-414 | removing a range keeps extents ordered, disjoint and coalesced |
| `Extents.CanonicalUnique` | common/src/seg_tree.c:281-329 | coalesced extents with the same meaning have the same places: there is only one such tree content |
| `Owners.OneOwnerExact` | common/src/seg_tree.c:207-237 | every offset keeps its client id, and the new ones get theirs, if the extent cuts and joins only extents of its own client |
| `Owners.Mislabelled` | common/src/seg_tree.c:207-316 | an extent of another client that is cut or joined leaves some offset with the wrong client id |
| `Owners.AddedIds` | common/src/seg_tree.c:207-316 | which id every offset gets: that of the extent the new one continues, the id of the new one, or the one it had |
| `Owners.OwnersExactly` | common/src/seg_tree.c:207-316 | client ids are exact after an addition if and only if the extent cuts and joins only extents of its own client |
| `Owners.SingleClient` | common/src/seg_tree.c:207-316 | a tree of one client keeps all its ids, and stays a tree of that client |
| `Owners.WrongLog` | common/src/seg_tree.c:207-237 | a write of client 2 into the middle of an extent of client 1 sends reads of the rest to the log of client 2 |
| `RedBlack.HeightBound` | common/src/tree.h:403-522 | a red-black tree with n nodes has height h with 2^h <= (n + 1)^2 |
| `RedBlack.DistinctNodes` | common/src/tree.h:523-620 | no node is linked in a tree twice |
| `RedBlack.RotLTree` | common/src/tree.h:338-356 | the pointer writes of a left rotation turn the tree below a place into its rotation, still in order |
| `RedBlack.RotRTree` | common/src/tree.h:358-376 | the same for a right rotation |
| `RedBlack.LiftedLeft` | common/src/tree.h:403-446 | the rotation that ends an insertion restores all colours and black heights |
| `RedBlack.LiftedRight` | common/src/tree.h:403-446 | the same on the other side |
| `RedBlack.PushedBlack` | common/src/tree.h:403-446 | recolouring parent and uncle moves the only red-red conflict two levels up |
| `RedBlack.SunkLeft` | common/src/tree.h:447-522 | recolouring a black sibling moves the missing black one level up |
| `RedBlack.SunkRight` | common/src/tree.h:447-522 | the same on the other side |
| `RedBlack.SettledLeft` | common/src/tree.h:447-522 | the last rotation of a removal makes up for the missing black |
| `RedBlack.SettledRight` | common/src/tree.h:447-522 | the same on the other side |
| `RedBlack.SpliceBalance` | common/src/tree.h:523-590 | a node with one child at most leaves a tree that is short of one black at its place at most |
| `RedBlack.SuccessorEntries` | common/src/tree.h:523-590 | putting the successor in the place of a removed node keeps the order of all other nodes |
| `RedBlack.RbTree.RotateLeft` | common/src/tree.h:338-356 | rotates in place: same content in order, same tree elsewhere |
| `RedBlack.RbTree.RotateRight` | common/src/tree.h:358-376 | rotates in place: same content in order, same tree elsewhere |
| `RedBlack.RbTree.InsertColor` | common/src/tree.h:403-446 | ends, with a red-black tree of the same nodes in the same order |
| `RedBlack.RbTree.Insert` | common/src/tree.h:591-620 | links a node at its place in order, or returns the first overlapping node it meets and changes nothing |
| `RedBlack.RbTree.RemoveColor` | common/src/tree.h:447-522 | ends, with a red-black tree of the same nodes in the same order |
| `RedBlack.RbTree.Remove` | common/src/tree.h:523-590 | takes exactly that node out; the others stay in order, and the tree stays red-black |
| `RedBlack.RbTree.NFind` | common/src/tree.h:640-660 | finds the first node that does not end before an offset, or none if all do |
| `RedBlack.RbTree.Next` | common/src/tree.h:661-682 | the next node in order, or null behind the last |
| `RedBlack.RbTree.Prev` | common/src/tree.h:683-703 | the previous node in order, or null before the first |
| `RedBlack.RbTree.Min` | common/src/tree.h:704-717 | the first node in order, or null if there is none |
| `SegmentTree.FirstUncovered` | common/src/seg_tree.c:105-149 | the range that is computed is the first stretch of one extent that the other does not cover, and there is none exactly if it is covered |
| `SegmentTree.CutKeeps` | common/src/seg_tree.c:187-262 | cutting one overlapped extent keeps what is below and above the new extent |
| `SegmentTree.CutWork` | common/src/seg_tree.c:187-262 | every round of the overlap loop leaves less work |
| `SegmentTree.PareKeeps` | common/src/seg_tree.c:344-414 | cutting one extent out of a removed range keeps what is outside of it |
| `SegmentTree.JoinsGlue` | common/src/seg_tree.c:281-316 | coalescing with the previous and the next extent gives the coalesced sequence |
| `SegmentTree.SegTree.Add` | common/src/seg_tree.c:154-336 | the content becomes that of `Extents.Added`; count, max, order and red-black shape are kept, and no node is lost |
| `SegmentTree.SegTree.Remove` | common/src/seg_tree.c:344-414 | the content becomes that of `Extents.Removed`; count, order and red-black shape are kept, and no node is lost |
| `SegmentTree.SegTree.Find` | common/src/seg_tree.c:423-452 | finds the first extent that overlaps a range, or none if none does |
| `SegmentTree.SegTree.Iter` | common/src/seg_tree.c:493-518 | goes through the extents in order, from the first to the last |
| `SegmentTree.SegTree.Clear` | common/src/seg_tree.c:566-596 | frees every node once and leaves an empty tree |
| `WriteSync.LastOverlay` | client/src/unifyfs_fid.c:1039-1057 | what the server grabs of an index overlays what it had |
| `WriteSync.RunInv` | client/src/unifyfs_fid.c:969-1250 | in every run both trees stay coalesced and pending extents imply that a sync is needed, whichever rpcs fail |
| `WriteSync.RunTruthful` | client/src/unifyfs_fid.c:878-1250 | in every run, whichever rpcs fail, local extents lead each offset to its last write, and pending ones are never stale |
| `WriteSync.RunSeen` | client/src/unifyfs_fid.c:878-1250 | if the rpcs succeed, the server overlaid with the pending extents is the last-writer-wins state, forced syncs included |
| `WriteSync.SyncedRun` | client/src/unifyfs_fid.c:1091-1139 | after a sync that succeeds, the server alone has that state and nothing is pending |
| `WriteSync.SyncedWrites` | client/src/unifyfs_fid.c:1226-1240 | with a sync after every write and rpcs that succeed, nothing is ever pending and the server has the whole history |
| `WriteSync.NotYetSent` | client/src/unifyfs_fid.c:985-997 | without it, writes that cannot fill the index are all still pending, and the server has heard of none |
| `WriteSync.NoLocal` | client/src/unifyfs_fid.c:969-983 | without local extents none are kept, in every run |
| `WriteSync.TruncateOrder` | client/src/unifyfs_fid.c:936-957 | a truncation whose sync fails does not reach the server; otherwise the server gets the writes first |
| `WriteSync.RunSplit` | client/src/unifyfs_fid.c:969-1139 | in every run, whichever rpcs fail, the server has only writes before some point and those pending came after it |
| `WriteSync.FailedSync` | client/src/unifyfs_fid.c:1110-1136 | after every run of writes with their own places in the log, a sync whose rpc fails leaves the file as it was seen if and only if nothing was pending |
| `WriteSync.LostWrite` | client/src/unifyfs_fid.c:1110-1136 | one write and one failed sync: the file no longer has it, and no later sync sends it |
| `WriteSync.TruncateExactly` | client/src/unifyfs_fid.c:910-957 | after every run whose rpcs succeeded, a truncation whose sync does what it has to leaves the file truncated if and only if its own rpc succeeds, or the server has nothing to truncate |
| `WriteSync.LostTruncation` | client/src/unifyfs_fid.c:878-957 | a write that was synced is still seen after a truncation whose rpc fails, and nothing is left to send |
| `WriteSync.SameHistorySameExtents` | client/src/unifyfs_fid.c:969-1006 | runs that leave the same content leave the same local extents, however the writes overlapped |
| `WriteSync.IndexFits` | client/src/unifyfs_fid.c:985-1003 | in every run the pending extents fit into the write index, also in the middle of a write |
| `WriteSync.SmallIndexOverflows` | client/src/unifyfs_fid.c:991-997 | with fewer entries the subtraction wraps around, and one or two writes overflow the index |
| `WriteSync.IndexFitsExactly` | client/src/unifyfs_fid.c:985-1003 | the index never overflows if and only if it has two entries, or one and every write is synced at once |
| `FileSync.ClientFile.FillIndex` | client/src/unifyfs_fid.c:1022-1060 | the index has an entry for every pending extent, in order |
| `FileSync.ClientFile.RewriteIndex` | client/src/unifyfs_fid.c:1022-1060 | the entries are those of the pending tree, all with the id of the file, and the tree is empty afterwards |
| `FileSync.ClientFile.SyncExtents` | client/src/unifyfs_fid.c:1091-1139 | the state becomes that of `WriteSync.Sync`: the pending extents are added to what the server has of this file, and what it has of every other file stays |
| `FileSync.ClientFile.AddWriteMeta` | client/src/unifyfs_fid.c:969-1006 | the state becomes that of `WriteSync.AddMeta` |
| `FileSync.ClientFile.Write` | client/src/unifyfs_fid.c:1198-1250 | refusals, each with its code, change nothing; otherwise what was written to the log is recorded as `WriteSync.Write` does, and other files stay |
| `FileSync.ClientFile.TruncateMeta` | client/src/unifyfs_fid.c:878-905 | both trees lose what lies at or after the new size |
| `FileSync.ClientFile.TruncateFile` | client/src/unifyfs_fid.c:910-957 | directories and laminated files are refused; otherwise the state becomes that of `WriteSync.Truncate`, with success exactly if the truncate rpc succeeds, and the sync rpc if anything is left to send |
| `FileSync.Server.Fsync` | server/src/unifyfs_fops_rpc.c:57-130 | the entries of the index are added to the record of the file of the rpc, and to no other; the file of the first entry is the one the server asserts |
| `Sharing.RunBoth` | client/src/unifyfs_fid.c:878-1250 | two files that share the write index and the server are in the states of runs of their own operations, however those are interleaved |
| `ReadRequest.BufferOf` | client/src/margo_client.c:1047-1117 | in every order of disjoint messages the buffer has their bytes and its other bytes are as before |
| `ReadRequest.CoverageOf` | client/src/client_read.c:274-291 | after any messages the coverage is their first and last byte, and nread is one more than the last |
| `ReadRequest.AnyOrder` | client/src/margo_client.c:1047-1117 | the same messages in two orders leave the same request |
| `Interleave.OwnMessages` | client/src/margo_client.c:1047-1173 | in every interleaving of the messages of several requests, with any errors, a request is what its own data and its last error leave: nothing read with an error, unless later data extends the read |
| `Interleave.InTimeExactly` | client/src/client_read.c:161-203 | a request ends as its data with its error on top if and only if no data overtakes the error |
| `Interleave.FinalInTime` | client/src/client_read.c:161-203 | none does if the completion of a request is the last message for it |
| `Interleave.AnyInterleaving` | client/src/margo_client.c:1047-1173 | two interleavings of the same data and errors leave all requests of a multi-read the same, if no data overtakes an error |
| `Interleave.OrderMatters` | client/src/client_read.c:161-203 | an error after one byte leaves nothing read, and before it one byte read |
| `Interleave.CompleteExactly` | client/src/client_read.c:161-203 | where a completion is the last message of its request, the wait loop sees the end exactly when all have completed |
| `Interleave.ErrorCount` | client/src/client_read.c:161-203 | n_error is the number of requests that completed with an error |
| `Interleave.WaitingCount` | client/src/client_read.c:812-818 | those that time out are counted once each |
| `Interleave.AllReported` | client/src/client_read.c:784-832 | when all have completed, the caller gets of each request what its own messages and the file size give: the POSIX result if the zeros of the client are right |
| `Interleave.TimedOutExactly` | client/src/client_read.c:784-832 | a request without an error is reported as timed out if and only if some request has not completed |
| `Interleave.LostCompletion` | client/src/client_read.c:805-818 | so a request that has completed is reported as timed out together with one that has not |
| `Interleave.MultiRead.Update` | client/src/client_read.c:161-203 | a completion becomes that of the state machine, with its counters; an index there is not is refused |
| `Interleave.MultiRead.Deliver` | client/src/margo_client.c:1047-1117 | a data message that is stored is one step of the state machine; a refused one changes nothing; one behind the end of the buffer extends the coverage of its request and leaves it with more read than asked for |
| `Interleave.MultiRead.Exchange` | client/src/margo_client.c:1047-1173 | any messages that fit, one after the other, leave what the state machine says |
| `Interleave.MultiRead.Conclude` | client/src/client_read.c:805-832 | the requests become those of `Interleave.Reported`, and those that time out are counted as errors |
| `ReadRequest.FinishedBuffer` | client/src/client_read.c:499-574 | for every error of the completion, what the caller gets: a fatal one with nothing read, or success with the bytes the file has, zero where the client fills and as delivered elsewhere |
| `ReadRequest.FinishedMeans` | client/src/client_read.c:499-574 | the final check of any request, by its code, its count and the size of the file, byte by byte |
| `ReadRequest.SizeUnknown` | client/src/client_read.c:528-534 | a short read without an error whose file size cannot be had is reported as one of no file, with buffer and count as delivered |
| `ReadRequest.PosixIfFilled` | client/src/client_read.c:499-574 | a request gets what POSIX read gives if it has no gap but those the client fills, or completes with ENODATA and no byte other than zero came |
| `ReadRequest.GapKept` | client/src/client_read.c:511-573 | in any other gap the old content of the buffer is returned as data |
| `ReadRequest.MiddleGap` | client/src/client_read.c:511-573 | a read of three bytes of which the server has the first and the last returns the old byte between them, and is not that of POSIX |
| `ReadRequest.DataLost` | client/src/client_read.c:499-574 | ENODATA after data replaces the data with zeros |
| `ReadRequest.PosixExactly` | client/src/client_read.c:499-574 | for every error and every file size that fits the messages, reads are those of POSIX for all old buffer contents if and only if there is no such gap, or nothing but zeros before ENODATA; with a fatal error they never are |
| `ReadRequest.ReadReq.Cover` | client/src/client_read.c:274-291 | the coverage and nread become those of `ReadRequest.Covered` |
| `ReadRequest.ReadReq.Receive` | client/src/margo_client.c:1047-1117 | which messages are refused, not pulled, stored or written behind the end of the buffer; the pieces pulled are exactly the message; the request says it has read no more than it asks for if and only if the message was not behind the end, and then says so by as much |
| `ReadRequest.ReadReq.Complete` | client/src/client_read.c:161-203 | a fatal error is what the caller sees, with nothing read, whatever the file size; otherwise the request becomes that of `ReadRequest.Completed`, which `ReadRequest.FinishedBuffer` describes |
| `ReadRequest.ReadReq.Finish` | client/src/client_read.c:499-574 | the request becomes that of `ReadRequest.Finished` |
| `ReadRequest.TooMuchRead` | client/src/client_read.c:528-573 | after such a message a read that ends without an error reports more bytes than were asked for, if the file does not go on behind them |
| `LocalRead.Coverage` | client/src/client_read.c:210-272 | the part is that of the offsets the request and the extent share, and there is none exactly if they share none |
| `LocalRead.HaveLocal` | client/src/client_read.c:344-381 | the check succeeds if and only if every byte asked for lies in an extent |
| `LocalRead.FillLocal` | client/src/client_read.c:397-463 | the request becomes that of `LocalRead.FromLogs`, whatever the logs give: all bytes, some, none, or an error |
| `LocalRead.Serve` | client/src/client_read.c:299-473 | a request is served here if and only if every byte has an extent, with what the logs give; otherwise it is unchanged |
| `LocalRead.LogsWhole` | client/src/client_read.c:397-463 | if each log gives all that is asked of it, every byte of the buffer is the log byte its extent leads to, and the coverage is the whole request |
| `LocalRead.NotGiven` | client/src/client_read.c:397-463 | a byte that no log gives is what it was |
| `LocalRead.AskedOfLog` | client/src/client_read.c:402-422 | what is asked of a log: the offsets that request and extent share, at their place in the log of the client of the extent |
| `LocalRead.GivenByte` | client/src/client_read.c:446-452 | a byte that its log gives is in the buffer, whatever the other logs do |
| `LocalRead.LogsCounted` | client/src/client_read.c:446-452 | the coverage is the first and the last byte that the logs give, whatever they leave out |
| `LocalRead.FailedRead` | client/src/client_read.c:453-457 | the error of the last log read that fails is the code of the request, and what the caller gets if it is fatal, for every file size |
| `LocalRead.LocalExactly` | client/src/client_read.c:397-463 | where no log read reports an error, a request served here is right for all contents of logs and buffer if and only if each log gives all that is asked of it |
| `Dispatch.Split` | client/src/client_read.c:299-473 | each request is served here or passed on, in its order, and the others are not touched meanwhile |
| `Dispatch.PassedExactly` | client/src/client_read.c:312-394 | a request is passed on to the server if and only if the client does not know its file or lacks an extent for some byte |
| `Dispatch.InOrder` | client/src/client_read.c:299-473 | requests of both kinds stay in their old order |
| `Dispatch.AskServer` | client/src/client_read.c:745-832 | the requests sent get what the messages, the wait and the file size give, or the error of the rpc; those served here stay as they are |
| `Dispatch.NotSentAll` | client/src/client_read.c:774-786 | if the rpc fails, each request is reported with its error and nothing read, and so is the call; ENODATA ends as a read of zeros |
| `Dispatch.ServerReads` | client/src/client_read.c:753-832 | a server that answers what it is asked for with bytes of that file gives each request the bytes of its own file at its own offset |
| `Dispatch.LocalReads` | client/src/client_read.c:299-473 | so do extents that lead to bytes of the files |
| `Dispatch.LocalFails` | client/src/client_read.c:453-457 | a request served here whose log read fails with a fatal error is reported with it |
| `Dispatch.ReadFiles` | client/src/client_read.c:585-866 | if it is not given up, the caller gets of every request what POSIX read() gives of its file at its offset, whether it was served here or by the server |
| `ReadBack.LastByte` | client/src/unifyfs_fid.c:1144-1192 | where each write has its own place in the log, the last log position of an offset holds the last byte written there |
| `ReadBack.OwnExtents` | client/src/unifyfs_fid.c:969-983 | in every run the extents kept of own writes are all in the own log |
| `ReadBack.ReadsBack` | client/src/client_read.c:299-473 | after every run of writes, truncations and syncs the extents lead to the last byte written, and to none where there is none |
| `ReadBack.ReadYourWrites` | client/src/client_read.c:299-473 | after any operations on a file object, with any rpcs failing, a request is served here if and only if every byte was written and not truncated, and then has the last bytes written |
| `ReadBack.WriteThenRead` | client/src/client_read.c:299-473 | the same from a new file on |
| `Mread.ActiveAt` | client/src/client_read.c:33-40 | an active id is in slot id modulo the capacity, and nowhere else |
| `Mread.DistanceNext` | client/src/client_read.c:62-69 | each try of the id search comes one nearer to an id of the last slot, over the wrap of the id counter too |
| `Mread.Table.Create` | client/src/client_read.c:44-94 | fails exactly if the last slot is taken; otherwise a new id gets a free slot within capacity tries, or twice as many where the id counter wraps |
| `Mread.Table.Get` | client/src/client_read.c:129-156 | an mread is found exactly if its id is active |
| `Mread.Table.Remove` | client/src/client_read.c:97-127 | the slot of the id is free afterwards and no other one is touched; failure is reported exactly if the id was not active |
| `Mread.Table.Clear` | common/src/arraylist.c:122-143 | the slot is empty, and the size is again one more than the last occupied slot |
| `Mread.RefusesWithRoom` | client/src/client_read.c:56-62 | a table with one active multi-read, in its last slot, refuses more |
| `Dispatch.Process` | client/src/client_read.c:585-866 | too many requests for the server or a full table give up exactly when the source does; otherwise the requests come back as a permutation, those served here first in their order, the others sorted, each with its final result; the table of multi-reads is as before |
| `Dispatch.Sort` | client/src/client_read.c:477-497 | sorts by file, then by offset, and loses nothing |
| `Stdio.PatchTwice` | client/src/unifyfs-stdio.c:806-866 | writing two pieces one behind the other is writing them at once |
| `Stdio.Stream.Flush` | client/src/unifyfs-stdio.c:475-522 | pending output reaches the file; after an error it is still pending, and what the file reads as does not change |
| `Stdio.Stream.Read` | client/src/unifyfs-stdio.c:528-685 | bytes pushed back first, then the file with pending output; the loop ends; position, end-of-file and error flags follow, and an I/O error costs the bytes pushed back |
| `Stdio.ReadMeans` | client/src/unifyfs-stdio.c:528-685 | when a read is refused, and otherwise which bytes it gives, and the flags |
| `Stdio.Stream.Write` | client/src/unifyfs-stdio.c:690-878 | where every byte lands, with output pending at any place, what is left behind by an I/O error in the middle, and that output which fits stays in the buffer |
| `Stdio.WriteMeans` | client/src/unifyfs-stdio.c:690-878 | when a write is refused, and otherwise every byte of the file after it |
| `Stdio.Stream.Seek` | client/src/unifyfs-stdio.c:883-982 | flushes, then moves, drops the bytes pushed back and clears end-of-file, or refuses as the reference does |
| `Stdio.SeekMeans` | client/src/unifyfs-stdio.c:916-975 | the position is the offset, the old position plus it, or the size plus it, and a seek succeeds exactly if that is not negative and fits |
| `Stdio.EndUnknown` | client/src/unifyfs-stdio.c:948-961 | if the size cannot be had, a seek from the end succeeds and ends up one before the offset |
| `Stdio.AppendAtEnd` | client/src/unifyfs-stdio.c:948-961 | what is written after a seek to the end is added to the file |
| `Stdio.BackAndRead` | client/src/unifyfs-stdio.c:883-982 | what was just written is read again after a seek back by as much, from the position or from the end |
| `Stdio.Stream.Ungetc` | client/src/unifyfs-stdio.c:1079-1164 | pushes a byte in front of the position while fewer than 1024 are there and the position is not 0; bytes keep their order when the buffer doubles |
| `Stdio.PushMeans` | client/src/unifyfs-stdio.c:1079-1164 | a byte is pushed back exactly if it is one, the position is not 0 and fewer than 1024 are there |
| `Stdio.Stream.SetBuffer` | client/src/unifyfs-stdio.c:416-470 | a stream gets one buffer, once, of a positive size; the refusals have their codes |
| `Stdio.LandingAligned` | client/src/unifyfs-stdio.c:792-866 | a write that joins pending output which ends at the position is a write at the position |
| `Stdio.Misplaced` | client/src/unifyfs-stdio.c:792-866 | bytes that join pending output which ends elsewhere do not land at the position |
| `Stdio.WriteExactly` | client/src/unifyfs-stdio.c:792-866 | writes are right, whatever the bytes, if and only if none of them joins pending output that ends elsewhere than at the position |
| `Stdio.OutputAfterPush` | client/src/unifyfs-stdio.c:792-866 | on a new stream, output, one byte pushed back, and output again leave the last byte behind the first output |
| `Stdio.ReadAfterPush` | client/src/unifyfs-stdio.c:792-866 | that is what is read back then |
| `Stdio.UnbufferedAfterPush` | client/src/unifyfs-stdio.c:721-743 | the unbuffered stream has the last byte at the position instead |
| `Stdio.PushedReadBack` | client/src/unifyfs-stdio.c:590-612 | bytes pushed back are read last in, first out, and reading them undoes the pushes |
| `Stdio.WrittenReadBack` | client/src/unifyfs-stdio.c:528-982 | what is written is read back from its place |
| `Stdio.Stream.Do` | client/src/unifyfs-stdio.c:475-1164 | one operation of a disciplined run does to the buffered stream what it does to the unbuffered one, unless I/O fails |
| `Stdio.Stream.Run` | client/src/unifyfs-stdio.c:475-1164 | in every run without input straight after output, answers and state are those of the unbuffered stream up to the first I/O error, and the run is complete if there is none |
| `Stdio.OpenAndRun` | client/src/unifyfs-stdio.c:380-1164 | the same for a run on a new stream, for any file and any run |
| `SlotMap.SetBit` | common/src/slotmap.c:32-39 | sets exactly that bit |
| `SlotMap.ClearBit` | common/src/slotmap.c:42-49 | clears exactly that bit |
| `SlotMap.FindZeroBits` | common/src/slotmap.c:171-201 | finds the first of the longest runs of clear bits of a byte |
| `SlotMap.SearchFree` | common/src/slotmap.c:229-291 | what the search finds is free, in every use map and from every starting byte |
| `SlotMap.SearchSmall` | common/src/slotmap.c:229-291 | up to eight slots are found in the first byte in which such start that lie in one byte, or in the longest free runs of two bytes, which meet |
| `SlotMap.SearchLarge` | common/src/slotmap.c:229-291 | more are found at the first whole bytes that are free |
| `SlotMap.RefusedExactly` | common/src/slotmap.c:211-315 | a reservation is refused if and only if it is empty, too few slots are unused, or the search sees no place as above |
| `SlotMap.OneRunExactly` | common/src/slotmap.c:211-315 | where the free slots of each byte follow each other, up to eight slots are refused if and only if so many are not unused, or not free in a row |
| `SlotMap.MissedRow` | common/src/slotmap.c:266-289 | otherwise six slots that are free in a row can be refused |
| `SlotMap.HintsOfTakes` | common/src/slotmap.c:299-306 | until a release, the hints are the first and the last slot used |
| `SlotMap.ReleaseHints` | common/src/slotmap.c:348-376 | what a release makes of the hints |
| `SlotMap.HintTooLow` | common/src/slotmap.c:354-365 | a release of the first slots sets the last-used hint too low, if more than one slot is still used behind them |
| `SlotMap.RunSound` | common/src/slotmap.c:211-378 | in every run of reservations and releases, live reservations are disjoint and are the used slots, and used_slots is their number |
| `SlotMap.WholeBytes` | common/src/slotmap.c:211-378 | where the number of slots is a multiple of eight no reservation leaves the map, and one slot is refused exactly if none is free |
| `SlotMap.ReleaseUndoes` | common/src/slotmap.c:326-378 | releasing what was reserved restores the use map and the count |
| `SlotMap.SmallOverrun` | common/src/slotmap.c:171-291 | a run that leaves a map of two to seven slots |
| `SlotMap.LargeOverrun` | common/src/slotmap.c:171-291 | a run that leaves a map of any larger number of slots that is no multiple of eight |
| `SlotMap.InsideExactly` | common/src/slotmap.c:211-315 | no run leaves the map if and only if the number of slots is a multiple of eight, or one |
| `SlotMap.HintCosts` | common/src/slotmap.c:229-234 | of two reserved halves of a map the first is released, and as many slots are then refused although they are free in a row |
| `SlotMap.SlotMapping.Reserve` | common/src/slotmap.c:211-315 | returns the slot of `SlotMap.Find`, which `SlotMap.RefusedExactly`, `SlotMap.SearchSmall` and `SlotMap.SearchLarge` describe, and marks the range, or -1 and changes nothing |
| `SlotMap.SlotMapping.Release` | common/src/slotmap.c:326-378 | clears the range and updates the hints as the source does, or refuses if its first slot is free |
| `FidTable.Table.constructor` | common/src/unifyfs-stack.c:61-77 | all ids are free, each on the stack once; the metadata are zero |
| `FidTable.Table.Create` | client/src/unifyfs_fid.c:199-261 | takes the top of the stack, or fails exactly if it is empty; the id was free and is in use afterwards |
| `FidTable.Table.GetMeta` | client/src/unifyfs_fid.c:673-698 | carries out a pending unlink on the way, and then finds nothing |
| `FidTable.Table.StorageFree` | client/src/unifyfs_fid.c:91-134 | fails if the lookup has already deleted the file |
| `FidTable.Table.Delete` | client/src/unifyfs_fid.c:342-372 | an id in use becomes free and is pushed exactly once, with an unlink pending or not; the recursion ends |
| `FidTable.TakenDeleted` | client/src/unifyfs_fid.c:199-372 | deleting a new file gives its id back: the free ids and those in use are as before |
| `FidTable.Table.UnlinkCallback` | client/src/margo_client.c:1269-1277 | marks a file that is in use, and deletes one that was marked before |
| `FidTable.UnlinkedThenLookedUp` | client/src/unifyfs_fid.c:673-698 | a new file that another client unlinks is not found by the next lookup, and its id is free |
| `FidTable.Room` | common/src/unifyfs-stack.c:101-119 | a push always finds room: free ids without the one pushed are fewer than the stack has places |
| `FidTable.DeleteNothing` | client/src/unifyfs.c:250-269 | deleting id 0 before there is any file succeeds, and changes no other id |
| `Transfer.Partition` | client/src/posix_client.c:737-816 | every byte of the file is copied by exactly one rank, for every size and number of ranks |
| `Transfer.NotTwice` | client/src/posix_client.c:737-816 | no byte is both in the block and in the extra chunk of a rank |
| `Transfer.SerialExactly` | client/src/posix_client.c:737-760 | a file of no more than a chunk for each rank is copied by the first rank alone, as a whole; of a larger one every rank copies something |
| `Transfer.SpansEnd` | client/src/posix_client.c:761-816 | no extra chunk goes beyond the file, and no block a whole chunk |
| `Transfer.CopyData` | client/src/posix_client.c:592-669 | copies whole buffers from the offset on, up to the end of the source |
| `Transfer.RoundedSpan` | client/src/posix_client.c:737-816 | rounding a count up to whole buffers copies no byte that is not in the span |
| `Transfer.TransferRank` | client/src/posix_client.c:737-816 | one rank copies its block and its extra chunk; the first rank alone copies a small file |
| `Transfer.Reproduced` | client/src/posix_client.c:737-816 | once every rank is done, in whatever order, the destination is the source, followed by what it had behind the end of the source |
| `Expr.Preserved` | common/src/tinyexpr.c:520-586 | folding keeps the value of every expression and the effects of its impure calls, in every state |
| `Expr.FoldsExactly` | common/src/tinyexpr.c:563-586 | an expression folds to a constant if and only if it has no variable and no impure call |
| `Expr.Stable` | common/src/tinyexpr.c:563-586 | folding twice is folding once |
| `Expr.CallInTurn` | common/src/tinyexpr.c:520-558 | a call evaluates its arguments in turn, each in the state the ones before it have left, and then its function |
| `Expr.Substitution` | common/src/tinyexpr.c:520-558 | a value in the place of a variable is that value given to the variable |
| `Expr.ClosedAlone` | common/src/tinyexpr.c:520-558 | an expression without variables and impure calls changes no state, and has the same value in all |
| `Ini.RStripShape` | common/src/ini.c:36-43 | what is left is a beginning of the string that does not end in a space |
| `Ini.LSkipShape` | common/src/ini.c:46-52 | what is left is an end of the string that does not begin with a space |
| `Ini.FindAt` | common/src/ini.c:57-73 | the search for a comment stops at a ; that follows a space, and at no place before the first one |
| `Ini.PrintedPair` | common/src/ini.c:82-219 | a printed setting is parsed as a pair with its key, whatever the value and whatever came before |
| `Ini.CommentLine` | common/src/ini.c:154-156 | a line whose first character after white space is # or ; changes nothing |
| `Ini.WhiteLine` | common/src/ini.c:154-156 | nor does a line of white space |
| `Ini.PairAnywhere` | common/src/ini.c:176-205 | name, = or :, and value, with white space around each and a comment behind, set that name to that value; names to continue are cut to 49 characters |
| `Ini.Continued` | common/src/ini.c:157-165 | a line that starts with white space gives the setting before it another value |
| `Ini.SectionAnywhere` | common/src/ini.c:166-175 | a section starts, with its name cut to 49 characters, whatever follows its bracket |
| `Ini.NoSign` | common/src/ini.c:200-204 | a line without = and : is passed over |
| `Ini.NoBracket` | common/src/ini.c:171-175 | so is a section whose name does not end |
| `Ini.ValueExactly` | common/src/ini.c:82-219 | a value survives printing and parsing if and only if it has no space around it and no ; where a comment starts |
| `Ini.HandledAt` | common/src/unifyfs_configurator.c:446-491 | the handler reaches the setting of that section and key and no other one, and sets it unless it has a value other than its default |
| `Ini.HandledNowhere` | common/src/unifyfs_configurator.c:446-491 | a pair for which there is no setting changes nothing |
| `Ini.OneHeader` | common/src/unifyfs_configurator.c:175-207 | the settings of one section are printed under one header, in their order |
| `Ini.RoundTripExactly` | common/src/unifyfs_configurator.c:175-207 | parsing what is printed into an empty configuration restores it if and only if every value survives |
| `Ini.PieceOfLine` | common/src/ini.c:82-219 | a pair that is found in a piece of a line fits into the buffer as a line of its own, or is inside of the value |
| `Ini.ReadWhole` | common/src/ini.c:126-150 | the reader gets the whole text, in pieces that end with a line, fill the buffer, or are the last |
| `Ini.TextRoundTripExactly` | common/src/ini.c:82-219 | for every configuration, reading the text through a buffer of 200 characters restores it if and only if every value survives, has no newline, and fits into the buffer with its key |

## Left out

- Transport, locks and threads: rpcs are parameters that tell whether they succeed, and every operation is one step. In Stdio.dfy a number tells how many underlying calls succeed before one fails.
- The server beyond recording extents and truncations of each file in order, and the log store (unifyfs_logio.c) beyond a map from position to byte.
- Failures of memory allocation.
- SegmentTree.SegTree.Add: offsets go up to 2^64 and log positions are unbounded; get_non_overlapping_range computes with long, so that `start2 - 1` and `end2 + 1` overflow at -2^63 and 2^63 - 1 there (common/src/seg_tree.c:105-149).
- SegmentTree.SegTree.Iter: the start node is one of the tree, as common/src/seg_tree.c:504-507 takes for granted; a node that was freed is not looked up.
- FileSync.ClientFile.Write: a write to the log that reports success has written at least one byte, which fails only if pwrite returns 0 for a positive count (common/src/unifyfs_logio.c:911-936); the object is built with an index of two entries or more, as `WriteSync.IndexFitsExactly` asks for.
- WriteSync.RunSeen: rpcs that fail are covered by `WriteSync.FailedSync` and `WriteSync.RunTruthful`; a sync rpc that fails is taken to have changed nothing at the server.
- LocalRead.FillLocal: a log read that succeeds gives a byte at least, which fails only if pread returns 0 (common/src/unifyfs_logio.c:833-856).
- LocalRead.Serve: the request has at least one byte, as callers see to (client/src/unifyfs-sysio.c:1203); no extent ends at the last offset of unsigned long, which writes cannot reach.
- ReadRequest.ReadReq.Receive: what a message behind the end of the buffer overwrites.
- ReadRequest.ReadReq.Finish: the final check of a request that has more read than asked for and a file that goes on behind it, which writes zeros behind the end of the buffer.
- Interleave.MultiRead.Deliver: a pull that fails halfway is not a step of the state machine; the index of a data message is that of a request, as the source asserts.
- Dispatch.Process: the sort is an insertion sort in the place of qsort; requests are objects with buffers of their own, and are not copied between arrays; the final check of the requests served here comes after the checks that can give up, which the caller can tell only if a log read failed with ENODATA; the extents of other clients that are fetched first (client/src/client_read.c:626-690) are among those the client has.
- Dispatch.ReadFiles: every file the server can be asked for has a size, and every log can be read; `Dispatch.LocalFails`, `Dispatch.NotSentAll` and `ReadRequest.SizeUnknown` are about the others.
- Sharing.RunBoth: two files; the operations of each are one step.
- Mread.Table.Create: the capacity is the constant the client uses; the multi-reads themselves are their ids.
- Stdio.Stream.Write: line-buffered and unbuffered streams, append mode and short underlying writes; another descriptor that changes the file under a stream.
- Stdio.Stream.SetBuffer: the type of buffering, and so its check; streams are fully buffered.
- Stdio.Stream.Read: a failed underlying read leaves the buffer as it was; the bytes are returned and not put into a buffer of the caller.
- SlotMap.SlotMapping.Release: the slots are inside of the map and not more than are used; others read or write outside of the map, or make the count wrap.
- FidTable.Table.Create: file names, attributes and storage; ids are created and deleted one after the other.
- Transfer.CopyData: reads and writes that are cut short, and files that change while they are copied.
- Expr.Preserved: values, functions and variables are left open; nodes are values, and are not updated in place; arguments are evaluated from the first to the last, which C leaves to the compiler (common/src/tinyexpr.c:517-545).
- Ini.RoundTripExactly: strings are values, and are not cut in place; the byte order mark at the start of a file; names of settings are words.
- The other wrappers of system calls and of stdio, fgets, scanf and wide characters, directories, file attributes, stage and mount.
