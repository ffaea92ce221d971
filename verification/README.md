# Verified models of lofs, base0fs and the annotation tools

This project models the stateful cores of the repository in Dafny and proves what they
guarantee. `dafny verify dfyconfig.toml` checks all of it.

| Files | What they model |
|---|---|
| `Options`, `Bytes`, `ByteFile` | values that may be missing, byte strings, and an open file with a seek position |
| `ChunkIndex`, `ChunkStore`, `ChunkFile`, `ChunkLimits` | the size-changing chunk store of base0fs: pages of variable length located by an array of end offsets, replaced in place, and whole files encoded into it and decoded from it |
| `Markov` | the Markov text generator: suffix array, lower-bound search, reservoir choice, output loop |
| `PageCache`, `LofsFile` | the lofs page cache over the lower file, refined to a flat byte file |
| `LookupThread`, `LookupRuns`, `LookupProgress` | the managed-lookup thread of lofs as a transition system over all interleavings of requesters, worker and shutdown |
| `LofsLookup`, `LofsInodes`, `LowerHandle` | interposition in lofs: references on lower dentries and mounts, one lofs inode per lower inode, the one open lower file per inode |
| `HoleFilling` | writes past end of file in base0fs |
| `AgentUtilization`, `UtilizationSweep` | the agent utilization report |
| `AnnoText`, `StubChain`, `AnnoReader`, `Annocat` | the annotation concatenator: escaping, job renaming, the chain of stub jobs, what is kept of the input, held-back output |

Code that works by updating state is a class or a method with loops, proved against a
function of its input or of its old state; what the program promises is then proved about
these functions. Kernel calls, the page codec, the block cipher, random numbers and the
answers of the lower file system are parameters.

Where the code departs from what it is for, the code is modelled as it is, the exact condition
under which it does what it should is proved, and where an input that shows the departure is
not obvious it is given:

* `put_page` on page 0 reads the word in front of the offset array (`ChunkLimits.PageZeroExact`, `ChunkLimits.PageZeroWrong`).
* `put_page` on a page beyond the next one fails only after the header has grown (`ChunkStore.PutPage`).
* `real_size` mixes encoded and plain lengths on replacement (`ChunkLimits.RealSizeExact`, `ChunkLimits.RealSizeFails`), and appending over a tail loses or leaves part of it (`ChunkLimits.AppendOverTail`, `ChunkLimits.AppendFails`).
* `encode_file` empties the data file but keeps a left-over index (`ChunkFile.RoundTrip`, `ChunkLimits.StaleIndexFails`).
* The Markov scan looks at a cell behind the suffix array that nobody writes (`Markov.SentinelReadExact`), and the test for a dead end compares through that cell without looking whether it is null: at a dead end that is the greatest suffix of the text the program does not stop but crashes, or does whatever the cell makes it do (`Markov.BeyondExactly`, `Markov.BeyondHappens`).
* `lofs_write_lower_page_segment` ignores its page offset when it picks the data (`PageCache.SegmentExact`).
* The shutdown sweep can follow the link of a freed request, exactly if the list is not empty when shutdown locks it (`LookupRuns.StaleReadExactly`).
* base0fs leaves bytes skipped inside the page it writes to the lower file system (`HoleFilling.GapReadsAsZerosExactly`).
* base0fs subtracts sizes as unsigned numbers on a 64-bit machine, and the zeroing inside a page then runs off the page: exactly if the write extends a file that ends inside a page and starts before its end or behind that page (`HoleFilling.Base0File.CommitWrite`, `HoleFilling.OverrunsInPage`, `HoleFilling.FillingOverruns`).
* A lofs inode opened with anything unusual besides read and write access is reopened by every such request (`LowerHandle.GrantedIsEnough`), and such a request can demote a read/write handle, against the comment at lofs/main.c:125 (`LowerHandle.Demoted`).
* The utilization report never sees the last interval of an agent (`AgentUtilization.LastIntervalIsLost`).
* `annocat` confuses jobs of two builds that have no J in their ids, and can confuse others if one build id begins with the other and an underscore (`AnnoText.SameNameExactly`, `AnnoText.CollideExactly`); it starts with a dangling follow job if the first build has no job (`StubChain.SerialExactly`), and never closes its output if the last build has none (`Annocat.Concatenator.Concatenate`).

Where comments and code disagree the code is followed: the comment above `put_page` promises
that a negative page number appends, and the code has no such case.

## Model

| member | source | states |
|---|---|---|
| ChunkIndex.ReplaceView | base0fs/sca_aux.c:131-222 | splicing a page in changes that page only; all other pages and the tail keep their bytes though their offsets move, the file length changes by the difference of the encoded lengths, and the index stays ordered and inside the file |
| ChunkIndex.SplicedPage | base0fs/sca_aux.c:181-222 | read through the moved offsets, the spliced page is the new one and every other page is the old one |
| ChunkIndex.SpliceByOpening | base0fs/sca_aux.c:150-222 | moving the remainder and then writing the page gives the file with the page spliced in, whether it shrinks, grows or fits |
| ChunkIndex.AppendView | base0fs/sca_aux.c:187-222 | writing the next page at the end offset appends it and leaves of the tail what the page does not cover |
| ChunkIndex.TailView | base0fs/sca_aux.c:101-125 | writing a tail replaces the tail and leaves all pages alone |
| ChunkStore.WriteAll | base0fs/sca_aux.c:213-222 | the write loop ends and the data is in the file at the position it started from |
| ChunkStore.DownStep | base0fs/sca_aux.c:153-159 | one buffer copied towards the front keeps the copied part moved and the rest untouched although source and destination overlap |
| ChunkStore.ShiftDown | base0fs/sca_aux.c:151-160 | the left-to-right loop ends and equals one memmove of the whole remainder followed by the cut, for every distance, remainder and buffer size of at least 1 |
| ChunkStore.UpStep | base0fs/sca_aux.c:163-177 | one buffer copied towards the end, right to left, never overwrites what is still to be copied |
| ChunkStore.ShiftUp | base0fs/sca_aux.c:161-178 | the right-to-left loop, short last copy included, ends and equals one memmove of the whole remainder, for every distance, remainder and buffer size of at least 1 |
| ChunkStore.MoveOffsets | base0fs/sca_aux.c:181-183 | every end offset from the page on moves by the difference, all earlier ones stay |
| ChunkStore.Reopen | base0fs/sca_aux.c:137-183 | after the shifting the page has exactly the room it needs, and index and real size have moved by the same difference |
| ChunkStore.OpenPage | base0fs/sca_aux.c:131-186 | the remainder and the index make room for the page, and the position is where it starts; for page 0, where the stray word says or, if that is negative, where the shifting has left off |
| ChunkStore.ReplacePage | base0fs/sca_aux.c:131-222 | a page other than the first is spliced in; page 0 is written wherever the position is |
| ChunkStore.PutTail | base0fs/sca_aux.c:105-124 | the short page lands behind the last page and ends the file; the real size trades the old tail for the new one |
| ChunkStore.GrowIndex | base0fs/sca_aux.c:188-210 | the next page gets the end offset it needs; a page further out fails with the header already grown and its new entries unset |
| ChunkStore.PutPage | base0fs/sca_aux.c:86-226 | file, index and sizes after each outcome: tail, encoder failure, replacement of page 0 and of any other page, next page, page too far out |
| ChunkStore.GetPage | base0fs/sca_aux.c:25-83 | which page numbers are refused, and that all others give the decoded page, or the raw tail |
| ChunkStore.ReplaceThenRead | base0fs/sca_aux.c:131-222 | after replacing page i, reading i gives the new data, reading any other page or the tail gives what it gave before, and the file length changes by the encoded difference; a failing encoder changes nothing |
| ChunkStore.AfterView | base0fs/sca_aux.c:101-222 | file and index after one call stand for the store after the same operation, in every case |
| ChunkStore.PutRun | base0fs/sca_aux.c:86-226 | any run of calls, each for a page other than the first or for the next one, failing ones included, is the same run on a sequence of pages and a tail |
| ChunkFile.PageStep | base0fs/sca_write.c:67-79 | appending the next whole chunk keeps the encoding loop's invariant |
| ChunkFile.TailStep | base0fs/sca_write.c:67-79 | appending the short last chunk as a tail completes the encoding |
| ChunkFile.WholeChunks | base0fs/sca_write.c:68-74 | before the end of the input the loop has taken whole chunks only |
| ChunkFile.NextChunk | base0fs/sca_write.c:68-74 | the chunk cut by the loop is the next one of the input, short exactly if the length is no multiple of the chunk size |
| ChunkFile.EncodeChunk | base0fs/sca_write.c:67-79 | one turn of the loop encodes one more chunk, keeps the file reaching as far as the index points once anything is written, and keeps the real size equal to the bytes read so far |
| ChunkFile.WroteNext | base0fs/sca_write.c:67-79 | something has been written after a turn exactly if it had before or this chunk encodes to something |
| ChunkFile.WroteUnlessEmpty | base0fs/sca_write.c:67-79 | a codec that makes something of everything writes something exactly if the input is not empty |
| ChunkFile.EncodeFile | base0fs/sca_write.c:27-91 | the whole input is encoded; the index lies inside the file exactly if no left-over index ended behind 0 or something was written; the real size of a fresh header ends as the input length; an encoder that never fails makes the call succeed |
| ChunkFile.DecodeFile | base0fs/sca_read.c:28-69 | succeeds exactly if each page decodes, and then writes the decoded pages in order and the tail if fast tails are on |
| ChunkFile.DecodedExactly | base0fs/sca_read.c:46-50 | decoding fails exactly if some page does not decode |
| ChunkFile.DecodedAt | base0fs/sca_read.c:46-57 | what a page decodes to stands behind what the pages before it decode to |
| ChunkFile.BlankIsZeros | base0fs/sca_write.c:51-61 | what a left-over index makes of a fresh data file: a page of zeros for each of its entries |
| ChunkFile.DecodedChunks | base0fs/sca_read.c:46-57 | the pages of an encoded input decode to the input up to the last page, behind whatever the stale pages decode to |
| ChunkFile.WhatIsSeen | base0fs/sca_read.c:46-67 | what a decoder gets is what the stale pages decode to and then the input, less its short last chunk if that is a tail the decoder does not read |
| ChunkFile.RoundTrip | base0fs/sca_write.c:51-91 | with no index left over, encoding then decoding returns the input exactly unless a tail was written and is not read; with one, the output is given for every combination of settings, and the index fits the file exactly if it ended at 0 or something was written |
| ChunkLimits.PageZeroExact | base0fs/sca_aux.c:185 | replacing page 0 is right for all contents exactly if it happens to be written at the start of the file or nothing is written |
| ChunkLimits.RealSizeExact | base0fs/sca_aux.c:147-148 | the real size stays right on replacement exactly if encoding keeps the difference of the lengths |
| ChunkLimits.RealSizeFails | base0fs/sca_aux.c:147-148 | a lossless codec and a replacement after which the real size is 3 and should be 2 |
| ChunkLimits.PlainSizeReplace | base0fs/sca_aux.c:147-148 | what the real size should become when a page is replaced |
| ChunkLimits.AppendOverTail | base0fs/sca_aux.c:187-222 | a tail is gone after an append exactly if it was no longer than the encoded page; the real size stays right exactly if there was no tail or the page encodes to nothing |
| ChunkLimits.AppendFails | base0fs/sca_aux.c:187-222 | a tail longer than the appended page: part of it stays, and the real size counts too much |
| ChunkLimits.StaleIndexFails | base0fs/sca_write.c:51-61 | a left-over index of one byte puts a zero in front of every input that is encoded and decoded |
| Markov.StrcmpTransitive | markov/main.cpp:77-83 | the comparison of the sort is transitive on texts without NULs |
| Markov.StrcmpExactly | markov/main.cpp:77-83 | strings without NULs compare equal exactly if they are the same, and otherwise by the first place where they differ; a string comes before what it is extended to |
| Markov.PrefixMonotone | markov/main.cpp:252 | comparing with a fixed prefix is monotone in the order the suffixes are sorted by |
| Markov.MatchIsPrefix | markov/main.cpp:265 | comparing equal to the prefix means starting with it |
| Markov.SortSuffixes | markov/main.cpp:202-211 | the suffix array holds every position once, in suffix order |
| Markov.LowerBound | markov/main.cpp:248-257 | the search ends at the least index whose suffix is not below the prefix |
| Markov.CmpMatches | markov/main.cpp:264-265 | a suffix compares equal exactly if the prefix occurs at its position |
| Markov.RunByCmp | markov/main.cpp:263-269 | the matches are exactly a contiguous run that starts where the search ended |
| Markov.Choose | markov/main.cpp:263-269 | the scan counts the whole run, and its choice is the last match whose draw came out as zero |
| Markov.PickIsLastZero | markov/main.cpp:263-269 | of any draws of which the first is zero the last zero is picked |
| Markov.ChoiceIsUnique | markov/main.cpp:263-276 | text, prefix and random numbers leave one position that can be chosen |
| Markov.SentinelReadExact | markov/main.cpp:264 | the scan looks at the cell behind the array exactly if the greatest suffix starts with the prefix |
| Markov.BeyondExactly | markov/main.cpp:285-286 | the comparison with the next match goes through the cell behind the array exactly if the dead end is the greatest suffix of the text |
| Markov.BeyondHappens | markov/main.cpp:285-286 | a text and a prefix for which it does |
| Markov.OutcomesExact | markov/main.cpp:266 | the draws for n matches have n! outcomes, all sequences with the i-th draw at most i |
| Markov.ReservoirUniform | markov/main.cpp:263-269 | each of the n matches is chosen by exactly (n-1)! of the n! outcomes |
| Markov.RunIsNotEmpty | markov/main.cpp:243-257 | a prefix that occurs in the text is found: the search lands on a real match |
| Markov.EndIsFirst | markov/main.cpp:276-289 | a chosen suffix that ends right after the prefix is the first of its run |
| Markov.OnlyMatchIsDeadEnd | markov/main.cpp:285-287 | if it is also the only match, the prefix occurs in the text at the very end and nowhere else |
| Markov.Extend | markov/main.cpp:299-301 | writing the character behind a match keeps every window of K+1 characters in the text and lets the search go on from the new end |
| Markov.NextCharacter | markov/main.cpp:246-289 | the position chosen is that of the last match of the run whose draw came out as zero; the turn writes the character behind it exactly if there is one; otherwise it ends at a dead end exactly if there is no other match, stopping or comparing through the cell behind the array as the greatest suffix decides, and tries again if there is one |
| Markov.AtEnd | markov/main.cpp:276-289 | what a turn does that has chosen a suffix with nothing behind the prefix |
| Markov.SeedFits | markov/main.cpp:223-229 | the seed starts as far into the first half as the random number is into its range, and lies inside a text of at least twice its length |
| Markov.Seed | markov/main.cpp:227-229 | the first K characters are copied from the text |
| Markov.TakeTurn | markov/main.cpp:238-303 | a turn appends the character behind the position chosen by the draws that are next, or nothing; the loop is left exactly at a newline with enough output, at a dead end, or at one where it crashes |
| Markov.Generate | markov/main.cpp:223-304 | the output is the seed and what the turns made of it, each with the next of the random numbers and the position they choose, none behind one that leaves the loop; every window of K+1 characters occurs in the text; on exit the output is full, or ends in a newline and is long enough, or its last K characters occur only at the end of the text, where it crashes exactly at the greatest suffix |
| Markov.OutputIsDetermined | markov/main.cpp:223-304 | after as many turns, text, seed and random numbers leave one output, one choice in each turn and one way to leave the loop |
| Markov.OneLateNewline | markov/main.cpp:291-303 | behind the seed and the required length there is a newline exactly at the end of an output that was ended by one |
| PageCache.LoadKeeps | lofs/read_write.c:104-140 | reading a page in changes nothing that can be read |
| PageCache.WriteThrough | lofs/mmap.c:177-195 | writing the whole prefix of the page down shows as writing only the new data; a copy of nothing extends a file that ends before it |
| PageCache.PrefixSameAsSegment | lofs/mmap.c:187 | on a clean page, writing the prefix has the same effect on the lower file as writing the new bytes only |
| PageCache.SegmentExact | lofs/read_write.c:77-93 | the segment asked for is written for every page content exactly if the page offset is 0 or the segment is empty |
| PageCache.OtherPageAgrees | lofs/mmap.c:177-195 | a write within one page leaves every other cached page in agreement with the lower file |
| PageCache.StoreShows | lofs/mmap.c:46-61 | a store into a mapped page shows as a store into the flat file before it is written back |
| PageCache.WritebackLength | lofs/mmap.c:72-80 | the computed length is the part of the page inside the file |
| PageCache.WritebackKeeps | lofs/mmap.c:69-99 | writing a page back changes nothing that can be read and never the size of the lower file |
| PageCache.CleanIsFlat | lofs/file.c:152-187 | with no dirty page left, the lower file is the flat file |
| PageCache.CleanByte | lofs/file.c:160 | what is on no dirty page is in the lower file |
| PageCache.TruncateShows | lofs/inode.c:811-832 | cutting or extending the lower file, the pages following, shows as the same on the flat file |
| LofsFile.LofsFile.WriteLower | lofs/read_write.c:40-59 | the data is in the lower file at the offset, wherever its position was |
| LofsFile.LofsFile.WriteLowerPageSegment | lofs/read_write.c:77-93 | the start of the page, not its segment, is written at the segment's file offset |
| LofsFile.LofsFile.ReadLowerPage | lofs/read_write.c:104-140 | a page holds the lower file's bytes and zeros behind its end |
| LofsFile.LofsFile.Readpage | lofs/mmap.c:110-122 | the page is up to date and the flat file unchanged |
| LofsFile.LofsFile.WriteBegin | lofs/mmap.c:136-163 | the page to be written to is up to date and the flat file unchanged |
| LofsFile.LofsFile.WriteEnd | lofs/mmap.c:177-195 | the flat file is the old one with the data written, and the size is its length |
| LofsFile.LofsFile.WriteData | lofs/mmap.c:136-195 | a write of any length at any position, page by page, is one write on the flat file |
| LofsFile.LofsFile.ReadData | lofs/mmap.c:110-122 | a read, page by page, gives the smaller of what is asked for and what the flat file has behind the position, and byte k of it is the one at position pos + k |
| LofsFile.ReadsExactly | lofs/read_write.c:104-140 | a read gives as many bytes as there are, up to what is asked for, and byte k is that at position pos + k |
| LofsFile.WriteThenRead | lofs/mmap.c:136-195 | what was written is read back; other positions read as before, and as zero where nothing was |
| LofsFile.StoreThenRead | lofs/mmap.c:46-61 | a mapped store is read back and changes one byte |
| LofsFile.TruncateThenRead | lofs/inode.c:811-832 | a truncated file has the size asked for, its old bytes up to it, and zeros behind its old end |
| LofsFile.LofsFile.WritePage | lofs/mmap.c:69-99 | only the page's dirty flag changes; size and flat file stay |
| LofsFile.LofsFile.Sync | lofs/file.c:142-192 | afterwards the lower file equals the flat file, which has not changed |
| LofsFile.LofsFile.SyncRange | lofs/file.c:157-160 | a sync of a range leaves the flat file's bytes of that range below |
| LofsFile.LofsFile.SetSize | lofs/inode.c:782-835 | the flat file is cut or extended with zeros |
| LofsFile.LofsFile.Step | lofs/mmap.c:69-195 | every operation reads and does what it does on a flat file; writing a page back keeps the lower length |
| LofsFile.LofsFile.Run | lofs/mmap.c:69-195 | any run of reads, writes, mapped stores, write-backs, truncations, whole and partial syncs and evictions reads what the same run reads on a flat file; a whole sync leaves that file below |
| LofsFile.ReadsInOrder | lofs/mmap.c:69-195 | each operation of a run reads what all operations before it have left |
| LookupThread.StepInv | lofs/kthread.c:66-198 | every step of every thread keeps the protocol's invariant |
| LookupThread.Distinct | lofs/kthread.c:83-87 | a request is submitted once, and is never at the same time on the list and served |
| LookupThread.RequesterInv | lofs/kthread.c:154-198 | the requester's steps keep the invariant |
| LookupThread.WorkerInv | lofs/kthread.c:66-112 | the worker's steps keep the invariant |
| LookupThread.ShutdownInv | lofs/kthread.c:129-144 | the shutdown's steps keep the invariant |
| LookupRuns.RunInv | lofs/kthread.c:66-198 | the invariant holds in the last state of every run |
| LookupRuns.ReachableInv | lofs/kthread.c:66-198 | the invariant holds in every state that can be reached from the start |
| LookupRuns.FlagsLeaveZeroOnce | lofs/kthread.c:88-104 | over any run a request's flags leave zero at most once and only ever are zero, processed, processed with an error, or zombie |
| LookupRuns.ResultIsFaithful | lofs/kthread.c:184-198 | a finished requester returns success or ENOENT as the path lookup answered, and EIO exactly if there was none |
| LookupRuns.ServedInOrder | lofs/kthread.c:83-87 | requests are served in the order of submission, each at most once |
| LookupRuns.NothingQueuedAfterShutdown | lofs/kthread.c:171-181 | once shutdown has marked the list nothing is put on it or taken off it |
| LookupRuns.NobodyStranded | lofs/kthread.c:129-144 | once shutdown has released the list, and if the sweep has followed no freed link, every accepted request has non-zero flags and its waiter can wake up |
| LookupRuns.FreedIsLeftAlone | lofs/kthread.c:194-195 | a freed request is not touched by the worker, not locked or marked by the sweep, and before shutdown not on the list |
| LookupRuns.NoStaleReadBeforeShutdown | lofs/kthread.c:83-107 | in runs without shutdown no thread follows a link of a freed request |
| LookupRuns.StaleReadExactly | lofs/kthread.c:135-140 | from any state in which shutdown has just locked the list, a run in which the sweep follows the link of a freed request exists exactly if the list is not empty |
| LookupRuns.ListedWaits | lofs/kthread.c:133-135 | every request on the list at that time is waiting and nobody holds its mutex |
| LookupRuns.SweepCanReadFreed | lofs/kthread.c:135-140 | such a state, reached from the start |
| LookupProgress.LockOrder | lofs/kthread.c:78-108 | control mutex before request mutex is the only nesting |
| LookupProgress.SomeoneCanMove | lofs/kthread.c:66-198 | no deadlock: while a requester is unfinished, some thread already in the protocol can take a step |
| LookupProgress.RunsEnd | lofs/kthread.c:66-198 | a run without newcomers is no longer than a budget computed from the state it starts in |
| LookupProgress.EverybodyFinishes | lofs/kthread.c:66-198 | when nothing can move any more, every requester is done, and a shutdown that was called has ended with the worker gone |
| LofsLookup.FollowOne | lofs/inode.c:260-264 | one mount is followed if there is one, and the references move along |
| LofsLookup.FollowMounts | lofs/inode.c:260-264 | the loop ends on a finite mount stack at the path with all mounts followed, holding one reference on each half of it |
| LofsLookup.FollowedIsChain | lofs/inode.c:260-264 | the path with all mounts followed is where the chain of mounts that starts at a path ends, and nothing is mounted on it |
| LofsLookup.FollowDown | lofs/inode.c:247-308 | where following ends for an unmanaged dentry and for each answer of the managed lookup, with one reference on each half of it, also on failure |
| LofsLookup.Interpose | lofs/inode.c:313-378 | which path is stored and which error is given in every case; the references left are exactly those stored in the lofs dentry, which never stands for a dentry of lofs; how it is hashed |
| LofsLookup.InterposedIsLower | lofs/inode.c:328-378 | no lofs dentry stands for one of lofs, one without an error stands for a lower path, and without managed dentries that is the end of the mounts, kept out by lofs itself or lack of memory only |
| LofsLookup.FindLower | lofs/inode.c:409-465 | a cached dentry is kept exactly if it is valid or zero and cannot be invalidated; a negative answer of the revalidation is the error reported; without a cached dentry, or with one that was invalidated, the fresh lookup gives the dentry or its error; one reference on it, the directory lock free |
| LofsLookup.Lookup | lofs/inode.c:389-474 | the same, up to the lofs dentry: over every outcome the lock is free and the references gained are exactly those stored; an invalidated dentry is never the one interposed; dot names are dropped; without managed dentries the lower path is the one with mounts followed |
| LofsLookup.Release | lofs/dentry.c:129-139 | exactly the stored references are given back |
| LofsLookup.LookupThenRelease | lofs/inode.c:389-474 | whatever a lookup comes to, a later release restores all reference counts and locks |
| LofsLookup.StepThroughLofs | lofs/inode.c:389-474 | one component looked up through lofs succeeds exactly if memory and, for an existing file, an inode can be had; then it stands for the next path of the ordinary walk with one reference on each half, otherwise no reference is left |
| LofsLookup.WalkThroughLofs | lofs/inode.c:256-356 | walking a path of ordinary, unmanaged components through lofs comes through the lower paths of the ordinary walk with mounts followed, none of them in lofs, and ends where it ends or at the first lookup that fails; the references gained are exactly those of the paths it came through |
| LofsInodes.AcquiredKeeps | lofs/inode.c:115-144 | one more user of the old or of a new inode keeps inodes unique and adds a lower reference only for a new one |
| LofsInodes.SettledExactly | lofs/inode.c:132-135 | exactly the inodes for this lower inode that are being freed are gone after the wait, and all others are as they were |
| LofsInodes.InodeCache.Wait | lofs/inode.c:132-135 | once the inodes being freed for this lower inode are gone, so are their references |
| LofsInodes.InodeCache.Iget | lofs/inode.c:132-135 | after that wait the matching inode is reused if there is one, a new one is set up otherwise if memory allows |
| LofsInodes.InodeCache.InodeForGrabbed | lofs/inode.c:132-143 | the reference grabbed is stored in a new inode or given back |
| LofsInodes.InodeCache.GetInode | lofs/inode.c:115-144 | in every case there stays at most one live inode per lower inode and superblock, and one lower reference per inode; failure changes nothing but what the wait did, and is ESTALE exactly for a dying lower inode and EACCES otherwise |
| LofsInodes.InodeCache.Iput | lofs/super.c:163-170 | the last user starts the eviction; nothing else changes |
| LofsInodes.InodeCache.Evict | lofs/super.c:163-170 | the inode and its one lower reference go together |
| LofsInodes.InodeCache.Run | lofs/inode.c:115-144 | after any run of acquisitions, releases and evictions lofs holds one reference on a lower inode per lofs inode for it: with one mount and nothing being freed one if there is a lofs inode and none otherwise, and none at all if no inode is left |
| LofsInodes.LowersWith | lofs/inode.c:73-78 | the references of a table with one more or one changed inode |
| LofsInodes.AtMostOneReference | lofs/inode.c:59-64 | where inodes are unique, of one mount and none is being freed, there is one reference on each lower inode that has a lofs inode and none on others |
| LowerHandle.LofsInode.PrivilegedOpen | lofs/main.c:79-107 | the mode of the opened file, with whatever bits the kernel sets by itself, and that a failed open leaves no reference |
| LowerHandle.LofsInode.InitPersistentFile | lofs/main.c:139-174 | the kept file is replaced exactly if it is not enough and the new open works; a failed upgrade leaves it in place; opens minus closes stays one while a file is kept |
| LowerHandle.LofsInode.Destroy | lofs/super.c:82-90 | every open has been closed and no reference is left |
| LowerHandle.LofsInode.Life | lofs/main.c:139-174 | over any run of successful and failing opens up to destruction: all closed at the end; a failed request keeps the file; with nothing unusual asked for, access never shrinks, every success is served, and there are at most two opens |
| LowerHandle.GrantedIsEnough | lofs/main.c:85-97 | the file opened for a request satisfies it exactly if it asks for nothing but reading, writing and what the kernel sets in every file |
| LowerHandle.AccessNeverShrinks | lofs/main.c:146-169 | a replacement keeps all access exactly if the old file was read-only or writing is asked for again, which always holds if nothing unusual is asked for |
| LowerHandle.Demoted | lofs/main.c:125-132 | a request that takes write access away from the kept file |
| HoleFilling.FilledIsExtended | base0fs/mmap.c:391-411 | writing back a page zeroed behind the end extends the file by encoded zeros to the end of that page |
| HoleFilling.WrittenShows | base0fs/mmap.c:431-477 | after the write every cached page still shows the decoded lower file |
| HoleFilling.GapReadsAsZerosExactly | base0fs/mmap.c:387-477 | a write past the end reads back as old content, zeros, data exactly if no byte is skipped inside the page written or zero is encoded as zero |
| HoleFilling.GuardExact | base0fs/mmap.c:439-440 | the zeroing stays inside its page exactly if the subtraction is signed or does not go below zero, and then has the signed length |
| HoleFilling.OverrunsInPage | base0fs/mmap.c:388-440 | for a write inside one page, overrunning means that a page is to be filled although the file ends inside one, or that the write extends the file from before its end within the last page |
| HoleFilling.FillingOverruns | base0fs/mmap.c:391-402 | a write that starts behind the old end within its page and overruns in the nested write |
| HoleFilling.NextOverruns | base0fs/mmap.c:388-440 | a write overruns as a whole exactly if one of its pages does |
| HoleFilling.Base0File.ZeroSkipped | base0fs/mmap.c:431-442 | what is skipped inside the page is zeroed in it, unless the length wraps around |
| HoleFilling.Base0File.ReadPage | base0fs/mmap.c:194-307 | the page shows the decoded lower file, zeros behind its end; other pages stay |
| HoleFilling.Base0File.PrepareWrite | base0fs/mmap.c:331-355 | a page not written as a whole is up to date afterwards |
| HoleFilling.Base0File.WriteOut | base0fs/mmap.c:414-477 | unless the zeroing overruns, the encoded data is in the lower file and both sizes agree |
| HoleFilling.Base0File.CommitWrite | base0fs/mmap.c:360-502 | all guards evaluated, the nested ones included, hold exactly unless the machine has 64 bits and the write overruns; then all pages skipped are filled with encoded zeros, the data is written and both sizes agree; the recursion is at most one level deep |
| HoleFilling.Base0File.FillPage | base0fs/mmap.c:391-411 | one turn fills the file to the end of the page, and overruns exactly on a 64-bit machine with a file that ends inside a page |
| HoleFilling.Base0File.Write | base0fs/mmap.c:331-502 | a write inside one page at any distance past the end: exactly when it overruns, and else that sizes end at the furthest byte, and what can be read is the flat write exactly under the condition above |
| HoleFilling.Base0File.WriteData | base0fs/mmap.c:331-502 | a write of any length at any distance past the end, page by page: exactly when it overruns, and else old content, zeros for the whole gap, then the data; both sizes end at the furthest byte |
| AgentUtilization.Aggregate | agent_utilization/AgentUtilization.tcl:74-95 | the events are those of all merged intervals but each agent's last |
| AgentUtilization.AggregateAgent | agent_utilization/AgentUtilization.tcl:75-94 | the same for one agent |
| AgentUtilization.ContinuesExactly | agent_utilization/AgentUtilization.tcl:84-85 | a job continues the interval under way exactly unless a new hundredth of a second begins behind its finish and no later than the job's start |
| AgentUtilization.MergedExactly | agent_utilization/AgentUtilization.tcl:77-94 | the jobs that are apart in this sense from the one before, and no others, open an interval each, which ends with the last job in front of the next one |
| AgentUtilization.NeighboursAreApart | agent_utilization/AgentUtilization.tcl:84-94 | between two neighbouring intervals a hundredth of a second begins |
| AgentUtilization.BackToBackIsMerged | agent_utilization/AgentUtilization.tcl:84-85 | a job that starts no later than the one before has finished opens no interval |
| AgentUtilization.EventsExactly | agent_utilization/AgentUtilization.tcl:88-90 | two events for each interval, its start with 1 and its finish with -1 |
| AgentUtilization.EmittedExactly | agent_utilization/AgentUtilization.tcl:74-95 | of every agent all merged intervals but the last are there, one agent's behind the other's, and nothing else |
| AgentUtilization.ClosedGapIsShort | agent_utilization/AgentUtilization.tcl:84-85 | each gap closed by merging is under 0.01 s |
| AgentUtilization.MergingIsAlmostExact | agent_utilization/AgentUtilization.tcl:77-94 | merging an agent's jobs never loses time and adds less than 0.01 s per job merged away |
| AgentUtilization.LastIntervalIsLost | agent_utilization/AgentUtilization.tcl:84-94 | as many intervals are missing as there are agents that ran a job |
| AgentUtilization.MergedAreProper | agent_utilization/AgentUtilization.tcl:77-94 | the merged intervals of consecutive jobs end no earlier than they start |
| UtilizationSweep.SortIsStable | agent_utilization/AgentUtilization.tcl:99 | the events are in order of time, those of the same time in their old order |
| UtilizationSweep.StableSortIsUnique | agent_utilization/AgentUtilization.tcl:99 | any stable sort gives this list |
| UtilizationSweep.CountNeverNegative | agent_utilization/AgentUtilization.tcl:105-128 | the running count is never negative and ends at 0 |
| UtilizationSweep.CountIsActive | agent_utilization/AgentUtilization.tcl:101-103 | between two events the count is the number of intervals under way at every moment |
| UtilizationSweep.ActiveInGap | agent_utilization/AgentUtilization.tcl:105-128 | as many intervals are under way anywhere between two events as at the first |
| UtilizationSweep.AtLeastIsActive | agent_utilization/AgentUtilization.tcl:105-134 | the time the count is at least c is the time at least c intervals are under way |
| UtilizationSweep.Sweep | agent_utilization/AgentUtilization.tcl:105-128 | there is a total for every count that occurs, and it is the time during which the count is exactly that |
| UtilizationSweep.Report | agent_utilization/AgentUtilization.tcl:130-134 | every count that occurs is listed, from the highest down, with the time during which the count is at least that |
| UtilizationSweep.WholeTime | agent_utilization/AgentUtilization.tcl:117 | the totals add up to the time of the last event |
| UtilizationSweep.WeightedIsLength | agent_utilization/AgentUtilization.tcl:105-128 | weighted with the count, the time adds up to the lengths of the intervals |
| UtilizationSweep.AreaIsWeighted | agent_utilization/AgentUtilization.tcl:105-128 | counts times their totals add up to the count-weighted time |
| UtilizationSweep.GetAgentUtilization | agent_utilization/AgentUtilization.tcl:64-137 | fails exactly without an emitted interval; otherwise every count that occurs is listed with the time during which at least so many intervals are under way, all time up to the last event at count 0, and the interval lengths as count-weighted total |
| AnnoText.EscapeIsSimultaneous | annocat/annocat.pl:260-267 | the four successive substitutions escape each character once |
| AnnoText.EscapeRoundTrip | annocat/annocat.pl:260-267 | expanding the predefined entities of section 4.6 of XML 1.0 gives the text back |
| AnnoText.EscapedIsPlain | annocat/annocat.pl:260-267 | no tag or quote character is left |
| AnnoText.ScopeIsInjective | annocat/annocat.pl:43-48 | for build ids without underscore, two jobs get the same name exactly if their ids are the same and so are the builds, or there is no J in it |
| AnnoText.ScopeWithinBuild | annocat/annocat.pl:43-48 | within one build no two ids are ever confused |
| AnnoText.SameNameExactly | annocat/annocat.pl:43-48 | for any builds and ids, when two jobs get the same name |
| AnnoText.CollideExactly | annocat/annocat.pl:43-48 | two builds can have jobs of the same name with a J in their ids exactly if one build id begins with the other and an underscore |
| AnnoText.ScopedHasBoth | annocat/annocat.pl:43-48 | an id with a J gets an underscore, an id without stays as it is |
| AnnoText.ScopedParts | annocat/annocat.pl:43-48 | the first J of an id gets the build id and an underscore behind it, and the rest stays |
| AnnoText.FakeIdIsInjective | annocat/annocat.pl:61 | stub ids of different numbers differ, also beyond eight digits |
| AnnoText.ScopedIsNotFake | annocat/annocat.pl:43-63 | no renamed job id is ever the id of a stub |
| StubChain.EndId | annocat/annocat.pl:72 | the id spelled out for the end job is the one it is given |
| StubChain.StubsAreLinks | annocat/annocat.pl:173-184 | if the first build has a job, rules and follow jobs take turns, numbered from 1, each follow job part of the rule before it, each letting the next one go |
| StubChain.SerialExactly | annocat/annocat.pl:297-299 | the stubs form one serial chain exactly if the first build has a job |
| StubChain.WaitsExactly | annocat/annocat.pl:71-80 | each stub is waited for by its successor and the end job and by no other stub |
| StubChain.PathsGoForward | annocat/annocat.pl:71-80 | no stub waits for itself, however indirectly |
| StubChain.FirstJobsWait | annocat/annocat.pl:76-78 | the rule stub of every build with a first job lists exactly that job, under its scoped id, unless the id is empty, and no other real job |
| StubChain.RulesInOrder | annocat/annocat.pl:173-184 | different builds have different rules, in their order |
| StubChain.OnlyRulesList | annocat/annocat.pl:173-184 | every stub that lists a real job is the rule of a build, so no follow job does |
| StubChain.EndingListsNone | annocat/annocat.pl:297-299 | neither the last follow job nor the end job lists a real job |
| AnnoReader.IdOfExactly | annocat/annocat.pl:131 | the id of a tag is that of its first id attribute, and empty without one |
| AnnoReader.ReadState | annocat/annocat.pl:114-143 | copying is on exactly behind a build tag or the end of a block with no metrics block and no block of a later build started since; the build that scopes ids is the latest |
| AnnoReader.KeptExactly | annocat/annocat.pl:114-251 | one piece is kept for every event that gives one, in the order of the events: blocks of the first build only and no metrics block; elements, text and ends of elements only while copying is on; every job reference scoped by the build it stands in, every value escaped |
| AnnoReader.SwitchedOffIsSilent | annocat/annocat.pl:132-148 | behind the start of a metrics block, or of any block of a later build, up to the next end of a block or build tag no element, text or end is kept |
| AnnoReader.BuildsExactly | annocat/annocat.pl:116-184 | every build tag counts; the first job of a build is the first kept job behind its tag and in front of the next, under the ids of both |
| AnnoReader.JobsExactly | annocat/annocat.pl:165-206 | the jobs of a build are the kept jobs behind its tag and in front of the next, in the order of the events |
| AnnoReader.ReadIsPlanned | annocat/annocat.pl:173-184 | exactly the builds with a first job have jobs |
| Annocat.FirstJob | annocat/annocat.pl:173-184 | what the first job of a build adds to the stubs |
| Annocat.PlanFirstJob | annocat/annocat.pl:173-184 | with its first job, the stubs of a build are next in the plan |
| Annocat.PlanAt | annocat/annocat.pl:165-184 | the plan at any build: the jobs and stubs of all builds before, its stubs, its jobs, and the rest |
| Annocat.StubsGoFirst | annocat/annocat.pl:174-183 | putting the stubs before the held-back pieces loses and reorders nothing |
| Annocat.Concatenator.StartBuildJobs | annocat/annocat.pl:173-184 | the stubs go in front of everything held back, which is all printed; the rule lets the first job of the build go |
| Annocat.Concatenator.StartElement | annocat/annocat.pl:165-206 | elements are echoed with every job reference renamed and every value but the `idList` escaped; the first job of a build comes behind its stubs, and any job behind everything planned before it |
| Annocat.Concatenator.StartBuildTag | annocat/annocat.pl:116-131 | only the first build tag is kept; from then on output is held back and ids are scoped by the new build |
| Annocat.Concatenator.EndBlockTag | annocat/annocat.pl:219-230 | the end of a kept block prints everything held back, in order |
| Annocat.Concatenator.Handle | annocat/annocat.pl:114-251 | every event keeps output, held-back output, numbering, state and the place of stubs and jobs in step with what has been read |
| Annocat.Concatenator.Finish | annocat/annocat.pl:297-301 | the last stubs are printed; the closing tags too, unless output is held back |
| Annocat.Concatenator.Concatenate | annocat/annocat.pl:285-301 | for every stream of events the stubs printed are the chain of its builds; stubs and jobs come in the planned order, the stubs of a build before its jobs and behind those of the builds before; and what the events give, event by event, comes out once and in order, all of it unless the last build has no job |
| Annocat.OutputIsChain | annocat/annocat.pl:173-184 | the stubs of a run are its chain; the output is opened if the first build has a job and closed unless the last one has none |

## Left out

- ChunkStore.WriteAll: writes are complete; a short write would make the loop write the same bytes again from the start (base0fs/sca_aux.c:115-122, 214-222).
- ChunkStore.PutPage: page numbers below 0, which index in front of the offset array; failures of malloc, mmap and fstat.
- ChunkFile.EncodeFile: a chunk size of 0, which the command line accepts and the loop never gets past; file names, and the byte layout of the index file, whose two sides use different integer widths (base0fs/sca_aux.c:240, 277).
- ChunkFile.RoundTrip: what `decode_file` reads when a left-over index points beyond the new file.
- ChunkStore.Codec: the page codec is not in the repository; any pair that decodes what it encoded.
- Integer widths and overflow of offsets, sizes and times, except where a member above is about them.
- Markov.SortSuffixes: `qsort` is stood in for by an insertion sort with the same contract.
- Markov.Choose: the scan stops in front of the cell behind the array, as it does if that is null; what it does with anything else there is not modelled.
- Markov.Generate: `turns` bounds the turns that are followed, since a turn may draw again without writing; overflow in the seed position and its random source; seeds longer than the output buffer; printing an output that fills its buffer and has no terminator; input with NULs.
- LofsFile.LofsFile.Run: error and short-write paths of the page cache, on which `lofs_writepage` leaves the page locked (lofs/mmap.c:86-92); the oldest kernels' sync, which flushes nothing (lofs/file.c:193-207); what the kernel's own write path does beyond calling `write_begin` and `write_end`.
- LookupThread.StepInv: allocation failure of a request, freezing, and the `path_lookup` variant of old kernels; a run goes on in the model after the sweep has followed the link of a freed request, and says nothing about the program from there on; `LookupRuns.StaleReadExactly` says when that can happen.
- LofsLookup.Lookup: `d_revalidate`, the other inode operations, the root dentry of a lofs mount, and the path string built for a managed lookup.
- LofsLookup.WalkThroughLofs: paths with dots or managed dentries, and lower directories that fail.
- LowerHandle.LofsInode.Life: lofs files opened earlier keep pointing at the closed lower file after an upgrade (lofs/main.c:166); the mutex.
- HoleFilling.Base0File.WriteData: asked for under the condition of `HoleFilling.Base0File.Write` on the page it starts in, where that condition is shown to be exact.
- HoleFilling.Base0File.CommitWrite: what comes after an overrun; block ciphers that are not byte by byte; error paths.
- AgentUtilization.Aggregate: floating point; times are reals.
- UtilizationSweep.GetAgentUtilization: asked for intervals that end no earlier than they start, which jobs run one after the other give (`UtilizationSweep.EmittedAreProper`).
- Annocat.Concatenator.Handle: the timing shifts of jobs and stubs (annocat/annocat.pl:153-158, 287), splitting an `idList` at spaces, and the spelling of tags; the order in which attributes are enumerated is given.
- Pass-through operations of lofs and base0fs, the rest of base0fs, kernel version switches, command lines, and the other tools of the repository: thin wrappers, configuration and one-loop scripts.
