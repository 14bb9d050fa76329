# Operating-systems homeworks, modelled and verified

This project is a Dafny model of the sequential cores of six operating-systems
homework programs written in C. Each program's threads, processes, system
calls and I/O are replaced by plain parameters or left out. What remains is
modelled in the form the C code has: arrays and classes where the C code
updates state in place, and functions where it only computes a value. The
properties each program relies on are proved about that model.

- **hw1, two shells.** `hw1/111511141.c` splits a line in place, writing NUL
  over separators. It handles quotes, a trailing `&`, the first `<` or `>`,
  and one `|`. `hw1/try.c` splits with `strtok` and routes tokens into two
  argument lists. The modules are `ShellText` (the word split both shells
  share), `ShellParse` and `ShellTry`. Each shell's `main` loop round is
  modelled as a decision: exit, skip, or run a single command or a pipe.
- **hw2, row-partitioned matrix product** (`MatrixProduct`). A is
  initialised with A[p] = p. C = A·A is computed in unsigned 32-bit
  arithmetic, with n processes each taking the rows
  `[j*dim/n, (j+1)*dim/n)`, for n = 1..16. Every case prints a mod-2^32
  checksum.
- **hw3, merge-sort job scheduler** (`SortKernels`, `MergeSched`).
  - A FIFO job queue.
  - Leaf jobs bubble-sort eight ranges.
  - Merge jobs merge two sorted runs through a scratch array.
  - A dispatcher scans a 15-node progress tree and queues a merge once
    both children are complete.
  - The worker threads are modelled as a scheduler that may run any enabled
    step next.
- **hw4, two segregated-fit allocators** (`PoolLayout`, `MultilevelBf`,
  `AiAlloc`). A 20000-byte pool is tiled by chunks with 32-byte headers.
  There are 11 size-class free lists. `malloc` does a best-fit search and
  splits the chunk it finds. `free` coalesces physical neighbours. The pool
  is modelled as a sequence of chunk records (offset, total size, free bit),
  and the lists as sequences of header offsets.
- **hw5, LRU / CFLRU page-replacement simulator** (`PageCache`,
  `PageReplay`).
  - The recency list has the MRU page at its head.
  - A chained hash index.
  - A clean-first window at the LRU end, kept as a clean list and a dirty
    list.
  - The hit, miss, eviction and write-back accounting of each trace
    reference.
- **hw6, read-only tar file system** (`TarIndex`, `TarOps`, `TarArchive`).
  - Decodes ustar headers (POSIX.1, pax "ustar Interchange Format") into an
    ordered list of records.
  - Answers getattr, readdir, read and readlink from that list.
  - An archive writer is modelled as well, as the partner of the parser.

`Wrappers` holds the `Option` type.

## Model

| member | source | states |
|---|---|---|
| ShellText.WordsAreWords | hw1/try.c:47 | every token the separator split yields is non-empty and holds no space, tab, newline or CR |
| ShellText.WordsOfSpaced | hw1/try.c:47 | splitting words written out with separators gives the same words back |
| ShellParse.TokenAt | hw1/111511141.c:34-51 | a quoted token's text starts after the quote and runs to the matching quote or the end; an unquoted one runs to the next separator |
| ShellParse.Resume | hw1/111511141.c:44-50 | scanning resumes one past the token's end, but never past the terminator (corrected cursor step) |
| ShellParse.BlankSpaces | hw1/111511141.c:23-26 | the skip loop stops at the first non-separator and writes NUL over exactly the separators it passed |
| ShellParse.ScanToken | hw1/111511141.c:34-51 | the scan over one token finds the token's span |
| ShellParse.Tokenize | hw1/111511141.c:21-63 | the collection loop stores at most 99 token starts, in order, followed by NULL; it leaves the buffer with NUL over every separator and token end it passed |
| ShellParse.Collect | hw1/111511141.c:21-54 | one round of the collection loop keeps the buffer final below the cursor and unread above it, stores the next token start, and moves the cursor forward (corrected step at the terminator) |
| ShellParse.LexShape | hw1/111511141.c:21-54 | the tokens lie in order inside the line, each ending before the next starts, and there are fewer than MAX_ARGS of them |
| ShellParse.TokensLaid | hw1/111511141.c:44-53 | after the loop each args[k] points at a NUL-terminated copy of token k's text |
| ShellParse.CutQuotesAt | hw1/111511141.c:75-86 | for an argument of two or more characters, the closing quote becomes NUL and the pointer moves past the opening one, so the argument reads as its text without the quotes; no other pointer changes |
| ShellParse.StripOne | hw1/111511141.c:71-86 | argument k loses its surrounding matching quotes when it has two or more characters, and no other pointer changes |
| ShellParse.StripQuotes | hw1/111511141.c:70-88 | every argument of two or more characters that starts and ends with the same quote loses those two quotes, once |
| ShellParse.SplitPipe | hw1/111511141.c:118-129 | on the pipe token the first list ends at the pipe and args2 receives the following arguments, NULL-terminated |
| ShellParse.CopyRun | hw1/111511141.c:123-128 | the copy loop moves the arguments after the pipe, up to NULL or MAX_ARGS-1 of them, and ends args2 with NULL |
| ShellParse.CopyStr | hw1/111511141.c:102-109 | strcpy of a file-name argument copies exactly the argument's text |
| ShellParse.Route | hw1/111511141.c:97-131 | the redirection and pipe pass leaves exactly the routing RouteFrom describes: the first "<" or ">" with a name after it sets that file and cuts the list; the first pipe token splits it |
| ShellParse.RouteAt | hw1/111511141.c:98-131 | one round of the routing loop either finishes with the routing RouteFrom gives from that argument, or leaves args alone and moves on with the same routing ahead |
| ShellParse.SkipRest | hw1/111511141.c:65 | the read-only skip over the separators after the cursor reaches the first non-separator (corrected too-many test) |
| ShellParse.Split | hw1/111511141.c:21-88 | corrected (see Findings): the token loop, the too-many check and the quote pass leave fewer than MAX_ARGS pointers showing the unquoted token texts, then NULL; too_much_args is set iff a non-separator is left after the loop and its trailing separators |
| ShellParse.DropAmp | hw1/111511141.c:90-95 | is_background is set iff the last argument is exactly "&", and then that argument is replaced by NULL; otherwise the list is unchanged |
| ShellParse.ParseCommand | hw1/111511141.c:13-132 | corrected (see Findings): over the line buffer, parse_command leaves args, args2, the file names, is_background and too_much_args as Parsed describes |
| ShellParse.CText | hw1/111511141.c:266-268 | the string main sees is the prefix of the line before its first NUL |
| ShellParse.ArgvOf | hw1/111511141.c:292-294 | the strings read out of the buffer are the pointer list before its first NULL |
| ShellParse.HandleLine | hw1/111511141.c:266-295 | corrected (see Findings): one round of main: end of input or "exit\n" exits; an empty list or too many arguments skips; otherwise the single command or the pipe runs |
| ShellParse.QuoteFreeTexts | hw1/111511141.c:21-63 | on a quote-free line of at most 99 words the arguments are exactly the line's words and nothing is left unread |
| ShellParse.LexWords | hw1/111511141.c:21-54 | on a quote-free line the collection loop finds the line's first words, up to 99, and a non-separator is left after it iff the line has more than 99 words |
| ShellParse.PlainCommand | hw1/111511141.c:90-95 | a command without operators runs its words; a last "&" sets background and is not passed on |
| ShellParse.RedirectCommand | hw1/111511141.c:100-114 | when the first operator is "<" or ">" with a name after it, the words before it run with that file |
| ShellParse.PipeCommand | hw1/111511141.c:118-130 | when the first operator is the pipe token, the words before it and after it are the two ends of a pipe |
| ShellParse.PipeArgv | hw1/111511141.c:125-128 | for a short enough list, args2 holds every argument after the pipe token |
| ShellParse.TooManyIsFull | hw1/111511141.c:64-68 | main skips a line as too long only after 99 arguments were collected |
| ShellParse.ResumeAsWritten | hw1/111511141.c:44-50 | the cursor step as written always moves past the token's end |
| ShellParse.UnclosedQuoteOverrun | hw1/111511141.c:41-44 | an unclosed quote runs the scan to the terminator and the step as written moves one past it; the corrected Resume stays on it |
| ShellParse.UnquotedEndOverrun | hw1/111511141.c:46-50 | an unquoted last token that reaches the terminator ends the scan there, and the step as written moves one past it; the corrected Resume stays on it |
| ShellParse.LastLineOverrun | hw1/111511141.c:46-50 | for the last line "ls" without a newline the token ends at 2, the step as written moves the cursor to 3 and the corrected one stays at 2 |
| ShellParse.TrailingSpaceTooMany | hw1/111511141.c:21-67 | 99 words followed by " \n" make too_much_args true as written, while the corrected Parsed does not flag the line |
| ShellTry.ClearArgs | hw1/try.c:36-45 | every one of the 64 slots of args and pipe_args becomes NULL |
| ShellTry.Take | hw1/try.c:47-65 | one round of the strtok loop keeps the arrays in step with the specification and consumes at least one token |
| ShellTry.Cut | hw1/try.c:55-59 | on the pipe token the first list is NULL-terminated and filling switches to pipe_args |
| ShellTry.Put | hw1/try.c:62-63 | a plain token is appended to the list being filled |
| ShellTry.ParseCommand | hw1/try.c:30-68 | parse_command leaves both NULL-terminated lists, the file names, the background flag and has_pipe as Parse describes |
| ShellTry.ReadList | hw1/try.c:207-211 | reading a pointer list up to its NULL gives the stored strings |
| ShellTry.HandleTry | hw1/try.c:187-211 | one round of main: end of input exits; "\n" skips; after parsing, an empty list skips, "exit" exits, and otherwise the pipe or the single command runs |
| ShellTry.ScanWords | hw1/try.c:60-63 | a stretch of tokens without "<", ">" and the pipe token is absorbed in one go: its non-"&" tokens are appended and any "&" sets background |
| ShellTry.TryPlain | hw1/try.c:47-67 | without "<", ">" and the pipe token, every token but "&" is an argument, in order, and background is set iff "&" occurs |
| ShellTry.TryPipe | hw1/try.c:55-63 | with one the pipe token, the tokens before it and after it, less any "&", become args and pipe_args |
| ShellTry.TryRedirect | hw1/try.c:49-63 | one "<" or ">" consumes the next token as the file; the tokens on both sides stay arguments |
| ShellTry.LaterRedirectWins | hw1/try.c:49-51 | the infile kept is the one named after the last "<" |
| ShellTry.ParseClean | hw1/try.c:49-63 | no "<", ">", the pipe token or "&" is ever stored in either list |
| ShellTry.ShellsAgree | hw1/try.c:191-211 | on a quote-free line without operators or "&", of at most 99 words and not starting with "exit", both shells run the line's words as one command |
| ShellTry.LineWords | hw1/try.c:191-204 | the two lines main tests by name split to ["exit"] and to nothing |
| MatrixProduct.Initial | hw2/111511141.c:9-15 | the initial matrix has dim*dim cells and each cell holds its own index |
| MatrixProduct.IniMatrices | hw2/111511141.c:9-15 | ini_matrices sets A[i*dim+j] = i*dim+j for every cell, and each value fits in 32 bits |
| MatrixProduct.Checksum | hw2/111511141.c:17-23 | the checksum is the sum of all dim*dim entries modulo 2^32 |
| MatrixProduct.ModAddBoth | hw2/111511141.c:100-101 | adding reduced values and reducing again gives the reduced sum |
| MatrixProduct.ProductAt | hw2/111511141.c:96-104 | cell (r, c) of the product sits at r*dim+c and holds Σ_k A[r][k]·A[k][c] mod 2^32 |
| MatrixProduct.DotProduct | hw2/111511141.c:98-102 | the inner loop's wrapping sum equals the unbounded dot product reduced modulo 2^32 |
| MatrixProduct.RowProduct | hw2/111511141.c:97-104 | one row r gets its product cells and no other cell changes |
| MatrixProduct.MultiplyBlock | hw2/111511141.c:96-105 | the block for rows [start, end) writes exactly those rows with the product and leaves every other cell as it was |
| MatrixProduct.ResetC | hw2/111511141.c:61-63 | every cell of C becomes 0 |
| MatrixProduct.Partition | hw2/111511141.c:86-87 | the row blocks j*dim/n for j < n start at 0, end at dim, are non-decreasing, and each row lies in exactly one block |
| MatrixProduct.Bounds | hw2/111511141.c:86-87 | each block lies inside the matrix and follows the previous one |
| MatrixProduct.RunCase | hw2/111511141.c:59-122 | after the reset and all n blocks, C is the full product and the checksum is its sum mod 2^32, whatever n is |
| MatrixProduct.AllCases | hw2/111511141.c:39-122 | all 16 cases print the same checksum: that of A·A for the initial A |
| SortKernels.MergedPermutes | hw3/111511141.c:129-149 | the merge of two runs is a permutation of their contents |
| SortKernels.MergedSorted | hw3/111511141.c:136-148 | merging two sorted runs gives a sorted run |
| SortKernels.MergeSortsRange | hw3/111511141.c:129-149 | merging sorted [s,m) and [m,e) gives a sorted permutation of [s,e) |
| SortKernels.MergedTakeLeft | hw3/111511141.c:137-138 | on equal keys the merge takes the left run's element first |
| SortKernels.Swap | hw3/111511141.c:121-123 | two cells are exchanged and nothing else changes |
| SortKernels.BubbleSort | hw3/111511141.c:117-127 | [s,e) becomes sorted and a permutation of its old contents; cells outside are unchanged |
| SortKernels.BubblePass | hw3/111511141.c:119-125 | one pass moves the largest element of the unsorted prefix to its end, without changing the multiset or the cells outside |
| SortKernels.Merge | hw3/111511141.c:129-149 | [s,e) becomes the merge of the two runs, the scratch array holds the old [s,e), and nothing outside changes |
| SortKernels.MergeBack | hw3/111511141.c:136-148 | the three cursor loops write the merge of the two runs into [lo,hi) and nothing outside it |
| SortKernels.MergeHeads | hw3/111511141.c:136-142 | the first loop stops when one run is exhausted, having written the merge's prefix of that length, and what remains to merge is the rest of the merge |
| SortKernels.CopyRange | hw3/111511141.c:130 | the memcpy copies [s,e) into the scratch array and leaves its other cells alone |
| SortKernels.MergeStep | hw3/111511141.c:136-142 | one iteration of the first loop emits the next element of the merge from one run |
| SortKernels.DrainLeft | hw3/111511141.c:143-145 | the rest of the left run is copied out |
| SortKernels.DrainRight | hw3/111511141.c:146-148 | the rest of the right run is copied out, completing the merge |
| MergeSched.TreeJobRange | hw3/111511141.c:197-212 | a merge job's start is its left child's start, its mid is the left child's end and the right child's start, and its end is the right child's end |
| MergeSched.RootCoversAll | hw3/111511141.c:209-211 | the root job covers [0, num_elements) |
| MergeSched.DisjointRanges | hw3/111511141.c:160-166 | subtrees with disjoint leaves have disjoint ranges |
| MergeSched.NestedRanges | hw3/111511141.c:197-212 | a subtree's range lies inside its ancestor's |
| MergeSched.SeedJob | hw3/111511141.c:162-170 | the seeding loop's leaf job i is the tree job of node 7+i; the last leaf takes the remainder |
| MergeSched.MergeJob | hw3/111511141.c:197-213 | the scan's job for index n is the tree job of node (n-1)/2 |
| MergeSched.Seeds | hw3/111511141.c:160-173 | exactly 8 leaf jobs are queued, with ids 7..14, in order |
| MergeSched.SeedEstablishes | hw3/111511141.c:160-173 | after seeding the scheduler invariant holds and no inner node is ready |
| MergeSched.TakeKeeps | hw3/111511141.c:237-239 | a worker taking the head job keeps the invariant |
| MergeSched.DispatchKeeps | hw3/111511141.c:185-219 | dispatching a ready node and queueing its merge job keeps the invariant, with one fewer undispatched node |
| MergeSched.FinishKeeps | hw3/111511141.c:247-253 | finishing a held job keeps the invariant and the array's multiset |
| MergeSched.ScanCloses | hw3/111511141.c:185-223 | after a scan no inner node is ready, and exactly the nodes ready before it are now dispatched |
| MergeSched.ScanJobsReady | hw3/111511141.c:185-216 | every job a scan queues belongs to a node that was ready: both children complete and the node not dispatched |
| MergeSched.ScanJobsOnce | hw3/111511141.c:188-195 | a scan queues at most one job per node, and one for every ready node |
| MergeSched.ScanAdvance | hw3/111511141.c:186-195 | looking at node p dispatches it exactly when it was ready |
| MergeSched.Quiescent | hw3/111511141.c:178 | when nothing is queued or held and no node is ready, every node is complete |
| MergeSched.RootDone | hw3/111511141.c:178 | once the root completes, every node has completed, 15 jobs were counted, and the array is sorted |
| MergeSched.Scheduler.constructor | hw3/111511141.c:15-37 | the initial state: empty queue, zero counters, every node not dispatched |
| MergeSched.Scheduler.AddJob | hw3/111511141.c:82-98 | the job joins the tail of the queue and both job counters rise by one |
| MergeSched.Scheduler.GetJob | hw3/111511141.c:100-115 | returns the oldest queued job and removes it; on an empty queue it returns {0,0,0,-1} and changes nothing |
| MergeSched.Scheduler.Seed | hw3/111511141.c:160-173 | the queue becomes the eight leaf jobs and the invariant holds |
| MergeSched.Scheduler.Scan | hw3/111511141.c:185-223 | one scan dispatches exactly the ready nodes and queues their merge jobs |
| MergeSched.Scheduler.ScanNode | hw3/111511141.c:186-222 | one step of the scan at index k |
| MergeSched.Scheduler.Execute | hw3/111511141.c:247-251 | a leaf job bubble-sorts its range; a merge job merges its two runs |
| MergeSched.Scheduler.WorkerTake | hw3/111511141.c:236-239 | the head job leaves the queue and is held by the worker; the dispatcher signal count and job_cnt are unchanged; the invariant holds and the progress measure drops |
| MergeSched.Scheduler.WorkerFinish | hw3/111511141.c:247-255 | the held job runs on its range only (a bubble sort or a merge), its node becomes COMPLETED, it leaves the held jobs, the queue is unchanged and the dispatcher semaphore rises by one; the invariant holds and the array keeps its multiset |
| MergeSched.Scheduler.DispatcherScan | hw3/111511141.c:178-226 | one semaphore post is consumed, and the scan leaves exactly ScanResult: the ready nodes dispatched and their merge jobs queued; the invariant holds and the progress measure drops |
| MergeSched.Scheduler.Run | hw3/111511141.c:158-260 | whatever order the steps run in, the array ends sorted and a permutation of the input, all 15 nodes complete, and job_cnt is 15 |
| PoolLayout.SizeClassBands | hw4/ai.c:39-51 | class k, for k = 1..9, holds exactly the sizes in [2^(k+4), 2^(k+5)) |
| PoolLayout.ClassOrder | hw4/ai.c:39-51 | the size classes are non-decreasing in the size |
| PoolLayout.RoundUp32 | hw4/multilevelBF.c:129-138 | the rounded size is a positive multiple of 32, at least the size and less than size+32; 0 maps to 32 |
| PoolLayout.RoundUp32AsWritten | hw4/multilevelBF.c:129-138 | in size_t arithmetic the rounding agrees with RoundUp32 except for the 31 largest sizes |
| PoolLayout.RoundUp32Wraps | hw4/multilevelBF.c:134-137 | the 31 largest sizes round to 0 as written, where the true rounding is 2^64 |
| PoolLayout.TilesTotal | hw4/multilevelBF.c:76-102 | the chunk sizes of a tiling sum to POOL_SIZE |
| PoolLayout.SpliceTiles | hw4/multilevelBF.c:241-269 | replacing a run of chunks by chunks covering the same bytes keeps the tiling |
| PoolLayout.FindPrevPhys | hw4/multilevelBF.c:272-289 | the header walk from the pool start returns the chunk ending where the given one starts, or nothing |
| PoolLayout.PrevPhysIsPredecessor | hw4/ai.c:110-130 | find_prev_phys finds exactly the physical predecessor, and nothing for the first chunk |
| PoolLayout.WithoutMs | hw4/multilevelBF.c:165-189 | unlinking removes one occurrence of the chunk from its list, and nothing when it is absent |
| PoolLayout.WithoutCutsOut | hw4/ai.c:57-81 | unlinking cuts out exactly that entry and keeps the others in order |
| PoolLayout.LinkTag | hw4/multilevelBF.c:55-74 | linking a free chunk at the tail of its own list adds exactly that chunk |
| PoolLayout.InitialValid | hw4/multilevelBF.c:76-102 | init_pool's single free chunk tiles the pool and sits alone in the top list |
| PoolLayout.BestInIsBest | hw4/multilevelBF.c:146-158 | the scan of one list finds an entry iff one fits; the entry found has the least excess in the list, and the first such entry wins ties |
| PoolLayout.BestFitIsGlobal | hw4/multilevelBF.c:140-163 | searching upward from the request's class finds a chunk iff some free chunk is large enough, and the one found has the least excess among the free chunks in its list |
| PoolLayout.MaxFreeUnique | hw4/ai.c:136-153 | any bound on the free data sizes that some free chunk (or 0) attains is the largest free data size |
| PoolLayout.CarveShape | hw4/multilevelBF.c:241-269 | the chunk handed out keeps its offset, is marked used and is large enough; with a leftover of at least 64 bytes a free tail holds the rest, so the two sizes sum to the original |
| PoolLayout.CarveValid | hw4/multilevelBF.c:241-269 | handing out a free chunk keeps the pool tiled, no two free chunks adjacent, and the lists exactly the free chunks by class |
| PoolLayout.ReleaseShape | hw4/multilevelBF.c:309-331 | freeing replaces the chunk and its free neighbours by one free chunk spanning exactly their bytes; everything else is unchanged |
| PoolLayout.ReleaseValid | hw4/multilevelBF.c:309-331 | freeing a used chunk keeps the pool tiled and coalesced, and the lists exact |
| PoolLayout.NeighbourFacts | hw4/multilevelBF.c:272-320 | a chunk's physical neighbours are the chunks before and after it in the tiling |
| MultilevelBf.GetLevel | hw4/multilevelBF.c:28-53 | -1 exactly for a size above POOL_SIZE - HEADER_SIZE; otherwise the size class |
| MultilevelBf.GetLevelBands | hw4/multilevelBF.c:28-53 | get_level is non-decreasing inside the pool and is 0 exactly below 32 |
| MultilevelBf.BestFitIsBest | hw4/multilevelBF.c:140-163 | find_best_fit returns a chunk iff some free chunk holds the size; it is free, large enough, on its list, and has the least excess in that list |
| MultilevelBf.HugeRequestServed | hw4/multilevelBF.c:219-241 | a request of SIZE_MAX bytes rounds to 0 as written and is handed a chunk |
| MultilevelBf.ListedMax | hw4/multilevelBF.c:104-127 | the walk over all lists computes the largest free data size |
| MultilevelBf.Heap.constructor | hw4/multilevelBF.c:24-26 | no pool yet and every list empty |
| MultilevelBf.Heap.AddToFreeList | hw4/multilevelBF.c:55-74 | the chunk becomes the tail of its level's list; nothing changes for a chunk without a level |
| MultilevelBf.Heap.RemoveFromFreeList | hw4/multilevelBF.c:165-189 | the chunk is unlinked from its level's list, keeping the others' order |
| MultilevelBf.Heap.InitPool | hw4/multilevelBF.c:76-102 | every list is emptied, then one free chunk spanning the pool joins the top list |
| MultilevelBf.Heap.Largest | hw4/multilevelBF.c:104-121 | the scan returns the largest data size over all free-list entries |
| MultilevelBf.Heap.FindBestFit | hw4/multilevelBF.c:140-163 | the list scan returns exactly BestFit |
| MultilevelBf.Heap.Malloc | hw4/multilevelBF.c:207-270 | corrected (see Findings): malloc(0) returns NULL, reports the largest free size when a pool exists, and unmaps it; any other size maps a pool if needed and hands out the best fit for the size rounded up without wrap-around past its header, or NULL |
| MultilevelBf.Heap.Allocate | hw4/multilevelBF.c:226-270 | rounding, best-fit search and hand-out on a mapped pool; the pool stays valid |
| MultilevelBf.Heap.TakeChunk | hw4/multilevelBF.c:241-269 | the best fit leaves its list and is split when the leftover is at least 64 bytes; the free tail joins its list |
| MultilevelBf.Heap.Free | hw4/multilevelBF.c:291-332 | NULL, out-of-pool pointers, pointers that do not start a current chunk and already-free chunks are ignored, so a double free is a no-op; otherwise the chunk is coalesced and the pool stays valid |
| MultilevelBf.Heap.Coalesce | hw4/multilevelBF.c:309-331 | the chunk is marked free, absorbs a free successor, is absorbed by a free predecessor, and the result joins its list |
| AiAlloc.ListLevel | hw4/ai.c:39-51 | get_level(total_size - HEADER_SIZE) is always a level, and it is the chunk's class for every real header |
| AiAlloc.ListLevelInPool | hw4/ai.c:86-104 | every header of a tiled pool belongs on the list of its own class |
| AiAlloc.CoalesceLevels | hw4/ai.c:296-322 | the neighbours free unlinks, and the merged chunk it links, use the lists of their classes |
| AiAlloc.SearchIsBest | hw4/ai.c:212-243 | the inline search finds a header iff some free chunk holds the rounded size; the one found is free and fits, and nothing in its list fits with less excess |
| AiAlloc.RequiredAsWritten | hw4/ai.c:212-213 | required_total_size in size_t arithmetic is below 2^64 |
| AiAlloc.SearchAsWrittenAgrees | hw4/ai.c:212-243 | below the top 63 sizes the search as written and the corrected search agree |
| AiAlloc.RequiredWraps | hw4/ai.c:212-213 | the top 63 sizes wrap required_total_size to at most 32, so every header qualifies |
| AiAlloc.HugeRequestServed | hw4/ai.c:193-273 | a request of SIZE_MAX - 39 bytes is handed the whole fresh pool |
| AiAlloc.Heap.constructor | hw4/ai.c:25-28 | no pool yet and every list empty |
| AiAlloc.Heap.AddToFreeList | hw4/ai.c:86-104 | the header becomes the tail of its level's list |
| AiAlloc.Heap.RemoveFromFreeList | hw4/ai.c:57-81 | the header is unlinked from its level's list, keeping the others' order |
| AiAlloc.Heap.InitPool | hw4/ai.c:168-191 | if the mapping succeeds, one free chunk spanning the pool joins the top list; if it fails, the pool stays unmapped |
| AiAlloc.Heap.LargestPhysical | hw4/ai.c:136-153 | the physical walk returns the largest data size of a chunk marked free |
| AiAlloc.Heap.SearchBestFit | hw4/ai.c:212-243 | the nested scan returns exactly Search |
| AiAlloc.Heap.Malloc | hw4/ai.c:193-273 | corrected (see Findings): malloc(0) returns NULL, reports the physical maximum when a pool exists, and unmaps it; otherwise the pool is mapped if needed and the best fit for the total size computed without wrap-around is handed out, or NULL |
| AiAlloc.Heap.Allocate | hw4/ai.c:210-273 | rounding, search and hand-out on a mapped pool; the pool stays valid |
| AiAlloc.Heap.TakeChunk | hw4/ai.c:245-272 | the best fit leaves its list and splits at best_fit + required_total_size when the leftover is at least 64 bytes |
| AiAlloc.Heap.Free | hw4/ai.c:275-323 | NULL, out-of-pool pointers, pointers that do not start a current chunk and already-free chunks are ignored; otherwise the chunk is coalesced and reinserted as one merged chunk |
| AiAlloc.Heap.Coalesce | hw4/ai.c:292-322 | the chunk is marked free, merges with its free neighbours, and the result joins its list |
| PageCache.PageOf | hw5/hw5_111511141.c:369 | vpn = addr >> 12: the address lies in page vpn |
| PageCache.Hash | hw5/hw5_111511141.c:93 | a bucket below HASH_SIZE, congruent to the vpn |
| PageCache.DeleteFirst | hw5/hw5_111511141.c:253-271 | unlinking a node closes the gap and keeps the order of the rest |
| PageCache.DeleteDistinct | hw5/hw5_111511141.c:253-271 | on a list without repeats, unlinking removes exactly that page and the size drops by one |
| PageCache.Position | hw5/hw5_111511141.c:95-104 | the position of a page in a list, absent exactly when the page is not there |
| PageCache.Prev | hw5/hw5_111511141.c:186-233 | node->prev: the page just before b, absent exactly when b is the head |
| PageCache.IndexAdd | hw5/hw5_111511141.c:106-113 | pushing a new head page on its bucket keeps the index exact |
| PageCache.IndexRemove | hw5/hw5_111511141.c:115-130 | dropping a page from its bucket indexes the list without that page |
| PageCache.EnterMatches | hw5/hw5_111511141.c:132-156 | region_add keeps the region's members equal to the clean list plus the dirty list, split by the dirty bit, and adds the page |
| PageCache.LeaveMatches | hw5/hw5_111511141.c:158-184 | region_remove keeps that partition and removes the page |
| PageCache.PullGrows | hw5/hw5_111511141.c:198-203 | pulling the boundary's predecessor into the region keeps the partition and the old members, and adds only resident pages |
| PageCache.VictimChoice | hw5/hw5_111511141.c:273-292 | the victim is resident: the LRU tail under LRU; under CFLRU a clean region page when there is one, else a region page when the region is not empty |
| PageCache.Cache.constructor | hw5/hw5_111511141.c:60-78 | an empty cache with window capacity/4 |
| PageCache.Cache.FindInHash | hw5/hw5_111511141.c:95-104 | the chain walk finds a page iff it is resident |
| PageCache.Cache.AddToHash | hw5/hw5_111511141.c:106-113 | the page is pushed on its bucket and the index stays exact |
| PageCache.Cache.RemoveFromHash | hw5/hw5_111511141.c:115-130 | only that page leaves its bucket, and the index matches the list without it |
| PageCache.Cache.RegionAdd | hw5/hw5_111511141.c:132-156 | nothing for a member; otherwise the page joins the head of the clean or dirty list |
| PageCache.Cache.RegionRemove | hw5/hw5_111511141.c:158-184 | nothing for a non-member; otherwise the page leaves the clean or dirty list |
| PageCache.Cache.PullBoundary | hw5/hw5_111511141.c:198-203 | above the window, the boundary's predecessor (unless it is the page to avoid) joins the region and becomes the boundary; otherwise nothing changes |
| PageCache.Cache.Promote | hw5/hw5_111511141.c:192-232 | a page other than the head leaves the region (pulling the boundary's predecessor in), moves to the head ahead of the others in their order, and within the window rejoins the region as the boundary |
| PageCache.Cache.MoveToHead | hw5/hw5_111511141.c:186-233 | the page becomes the head and the others keep their relative order and the size; a page already at the head stays put |
| PageCache.Cache.AddToHead | hw5/hw5_111511141.c:235-251 | the new page becomes the head and the size rises by one; within the window it joins the region as the boundary |
| PageCache.Cache.RemoveNode | hw5/hw5_111511141.c:253-271 | the page leaves the region and the list, the others keep their order, and the size drops by one |
| PageCache.Cache.EvictLru | hw5/hw5_111511141.c:273 | the victim is the LRU tail |
| PageCache.Cache.EvictCflru | hw5/hw5_111511141.c:275-311 | the victim is the clean tail, else the dirty tail, else the LRU tail; it leaves the region and the boundary's predecessor is pulled in |
| PageCache.Cache.Access | hw5/hw5_111511141.c:365-431 | a reference is a hit iff its page is resident; a hit moves the page to the head, a write making it dirty and moving a clean region member to the dirty list's head; a miss on a full cache evicts the policy's victim (a write-back iff it was dirty, the region losing it and pulling in the boundary's predecessor under CFLRU) and loads the page at the head, joining the region within the window |
| PageCache.Cache.Replay | hw5/hw5_111511141.c:376-411 | one reference of the counting loop adds exactly one hit or miss, keeps write-backs at most misses, and keeps the resident pages among those referenced, misses at least the distinct pages seen, and, when all the trace's pages fit, the resident pages equal to those seen with one miss each and no write-back |
| PageCache.Cache.Touch | hw5/hw5_111511141.c:373-394 | the hit branch moves the page to the head with move_to_head's region and boundary change, and a write sets its dirty bit, moving a clean region member from the clean list to the dirty list's head |
| PageCache.Cache.Load | hw5/hw5_111511141.c:395-431 | the miss branch evicts the policy's victim when the cache is full, then inserts the page at the head; the region and boundary are those eviction and add_to_head leave |
| PageCache.Cache.Evict | hw5/hw5_111511141.c:397-416 | the chosen victim leaves the cache, the index and the region, a write-back is counted iff it was dirty, and under CFLRU the boundary's predecessor (unless the victim) is pulled into the region as the new boundary |
| PageCache.Cache.Insert | hw5/hw5_111511141.c:418-430 | the new page becomes the head and is indexed, dirty iff the access is a write, and within the window it joins the region as the boundary |
| PageReplay.Simulate | hw5/hw5_111511141.c:350-446 | hits + misses = trace length, write-backs ≤ misses, misses ≥ the number of distinct pages, and with equality and no write-backs when the pages fit |
| PageReplay.RunSimulation | hw5/hw5_111511141.c:350-446 | one row per frame count, each with Simulate's guarantees |
| TarIndex.CString | hw6/111511141.c:100 | a buffer's C string is the prefix before its first NUL |
| TarIndex.StrLen | hw6/111511141.c:68 | strlen returns the index of the first NUL |
| TarIndex.RunDigits | hw6/111511141.c:44-51 | the run octal_to_int reads is made of octal digits only |
| TarIndex.OctalToInt | hw6/111511141.c:44-51 | the fold value*8 + d stops at NUL, a space or the first non-octal byte, and returns that run's octal value |
| TarIndex.TrimmedOnce | hw6/111511141.c:67-72 | exactly one trailing '/' is removed, and other paths are left alone |
| TarIndex.TrimSlash | hw6/111511141.c:67-72 | the buffer's C string loses one trailing '/', and at most that one byte changes |
| TarIndex.Narrow32 | hw6/111511141.c:103-109 | a mode, uid or gid keeps the low 32 bits of the value |
| TarIndex.Padded | hw6/111511141.c:130-132 | a member's data occupies its size rounded up to whole 512-byte blocks: a multiple of 512, at least the size and less than 512 beyond it |
| TarIndex.HeaderAt | hw6/111511141.c:125-127 | the data of the member whose header is at h starts at h + 512 |
| TarIndex.NextHeader | hw6/111511141.c:125-132 | the next header follows the data rounded up to whole blocks (corrected, unbounded size) |
| TarIndex.Int32 | hw6/111511141.c:112 | the size stored in an int lies in int's range, never exceeds the value, equals it below 2^31 and is the value minus 2^32 from 2^31 up to 2^32 |
| TarIndex.Int32LowBits | hw6/111511141.c:112 | the size stored in an int keeps the value's low 32 bits: the two differ by a multiple of 2^32 |
| TarIndex.CDiv | hw6/111511141.c:130 | C division truncates toward zero |
| TarIndex.NextHeaderAsWritten | hw6/111511141.c:126-132 | the value current_offset takes after a member, which is also the fseek target; it equals NextHeader while size + 511 fits in an int |
| TarIndex.NextHeaderAsWrittenBackwards | hw6/111511141.c:112-132 | a 2 GiB size field makes current_offset drop 4194303 blocks below the data; below offset 2147482624 the fseek target is negative, so the stream stays just past the header, and from there on the stream goes backwards |
| TarIndex.StreamAfterAsWritten | hw6/111511141.c:86-131 | the stream position after the fseek past a member: the seek target when it is not negative, otherwise just past the header; it equals NextHeader while size + 511 fits in an int |
| TarIndex.EntriesInside | hw6/111511141.c:85-93 | every record the walk finds has a full header block inside the archive, at or after the start |
| TarIndex.EntriesChained | hw6/111511141.c:125-132 | each record's header follows the previous record's data rounded up to whole blocks |
| TarIndex.ReadName | hw6/111511141.c:100-135 | the path is the 100-byte name field's C string less one trailing '/' |
| TarIndex.ReadHeader | hw6/111511141.c:98-127 | the field-by-field decoding builds HeaderEntry: octal fields at 100, 108, 116, 124 and 136, the typeflag at 156, and the link at 157 only for typeflag '2' |
| TarIndex.NodeList.constructor | hw6/111511141.c:39 | the list starts empty |
| TarIndex.NodeList.AddNode | hw6/111511141.c:54-64 | the record is appended at the tail, keeping archive order |
| TarIndex.NodeList.ParseTar | hw6/111511141.c:75-142 | the list becomes the records of the header walk, which stops at a short block or a block starting with NUL |
| TarOps.Target | hw6/111511141.c:147-148 | one leading '/' is stripped |
| TarOps.FindFrom | hw6/111511141.c:153-160 | the first record from i whose path matches exactly, or none |
| TarOps.GetNodeSpec | hw6/111511141.c:145-162 | get_node finds a record iff some record has the stripped path and it is not the root; the record found is the first such |
| TarOps.GetattrKinds | hw6/111511141.c:168-203 | getattr fails with ENOENT only for a path other than "/" that names no record; the type bits are directory for '5', symlink for '2' and regular file otherwise; st_size is the size as the record's int holds it: the member's size below 2 GiB, negative from 2 GiB to 4 GiB |
| TarOps.ModeKinds | hw6/111511141.c:183-195 | or-ing the type bits into the header mode keeps the permission bits and shows the type |
| TarOps.ChildIsJoin | hw6/111511141.c:231-256 | a child of directory t is t joined with the emitted name, and that name has no '/' |
| TarOps.JoinIsChild | hw6/111511141.c:231-256 | t joined with any name without '/' is a child of t, listed under that name |
| TarOps.ChildrenSpec | hw6/111511141.c:219-261 | a name is listed for t iff some record is a direct child of t under that name |
| TarOps.ReaddirResolves | hw6/111511141.c:216-258 | the listing starts with "." and "..", and every other name it lists resolves through get_node |
| TarOps.FileRead | hw6/111511141.c:286-288 | fread returns at most n bytes, and exactly the archive's bytes when they are there |
| TarOps.ReadWindow | hw6/111511141.c:266-292 | read fails exactly with ENOENT or EISDIR; the end of the file is the member's size narrowed to an int, so a member of 2 GiB up to 4 GiB reads as empty; from the end of the file on it returns nothing; otherwise it returns min(size, end - offset) bytes of the member's data starting at offset |
| TarOps.ReadlinkTarget | hw6/111511141.c:294-305 | readlink fails exactly with ENOENT or EINVAL; otherwise it fills the size-byte buffer with the link target cut to size-1 bytes and NUL-terminated |
| TarArchive.OctalDigits | hw6/111511141.c:44-51 | a writer's octal field has w octal digits |
| TarArchive.OctalRoundTrip | hw6/111511141.c:44-51 | reading back w octal digits gives the number written, when it fits |
| TarArchive.FieldValue | hw6/111511141.c:103-115 | octal_to_int on a field the writer produced returns the number written |
| TarArchive.HeaderNumbers | hw6/111511141.c:103-115 | each numeric field of a written header reads back as the member's mode, uid, gid, size and mtime |
| TarArchive.HeaderStrings | hw6/111511141.c:100-122 | the name and link fields of a written header read back as the member's name and link |
| TarArchive.HeaderRoundTrip | hw6/111511141.c:98-127 | decoding a header the writer produced gives back the member's record |
| TarArchive.MemberStep | hw6/111511141.c:85-132 | a written member decodes to its record, its data follows its header, and the walk moves past its padded data |
| TarArchive.EntriesOfPlaced | hw6/111511141.c:85-139 | the walk over placed members yields one record per member, in order |
| TarArchive.ParseRoundTrip | hw6/111511141.c:75-142 | parse_tar_file on a written archive recovers every member, in order, with its data offset |
| TarArchive.ParseContents | hw6/111511141.c:125-127 | record k has member k's size, and the archive bytes at its data offset are member k's data |
| TarArchive.LargeMemberAsWritten | hw6/111511141.c:112-132 | for an archive whose first member holds 2 GiB, the next record's data_offset as written is negative and the stream stays at 512, so the next header read is the member's first data block; the corrected walk moves past the data |

## Left out

- Threads, mutexes and semaphores of hw3 are left out, as is the `num_elements = -1` shutdown. `MergeSched.Scheduler.Run` instead lets any enabled step run next: a worker taking a job, a worker finishing one, or a dispatcher scan. A job's effect on the array happens atomically when it finishes. This is sound because jobs that are in flight at the same time have disjoint ranges.
- File and console I/O is left out: reading and writing the hw3 data files, reading the hw5 trace, `printf`, and `gettimeofday` with the elapsed-time arithmetic.
- The floating-point fault ratio of hw5 is left out.
- Of the hw6 file I/O, only reading bytes is modelled: the archive is a byte sequence and `fread` is `TarOps.FileRead`. A failed `fopen` (EIO) is not modelled.
- FUSE registration, `fuse_main` and the `struct stat` layout are left out. `getuid`/`getgid` become parameters of `TarOps.Getattr`.
- `fork`, `execvp`, `dup2`, `pipe`, `waitpid` and the SIGCHLD handler of both shells are left out. The shells' decision of what to run is an `Action` value.
- `fork`, `shmget`/`shmat` and `waitpid` of hw2 are left out. The children become a sequential loop over the row blocks, and their allocation-failure exits are not modelled.
- `mmap`/`munmap` and the pointer casts of both allocators are left out. Chunks are records, and the size `malloc(0)` reports is a return value.
- `MultilevelBf.Heap.Malloc`: a failed `mmap` in multilevelBF.c is not modelled; its pool always maps.
- `AiAlloc.Heap.Malloc` models a failed `mmap` with a `mapped` flag that the caller supplies.
- `hw4/main.c`, the test driver, is not part of this model.
- `hw3/valid.py`, the output comparison, is not part of this model. Its intent is what `MergeSched.Scheduler.Run` states.
- `PageCache.Prev`: a non-resident boundary is treated as having no predecessor. In the C code the boundary pointer can dangle after an LRU eviction. That only happens once the region is empty.
- `ShellParse.ParseCommand` requires the line to be a C string with a terminator. The C code steps past the terminator after an unclosed quote (hw1/111511141.c:41-44) and after an unquoted last token that reaches the terminator, as for a last line read without its newline (hw1/111511141.c:46-50); the corrected `ShellParse.Resume` is modelled instead (see Findings).
- `ShellParse.Parsed` models the corrected too-many test, which skips the separators after the last collected token. As written, 99 words followed by " \n" set too_much_args (see Findings, `ShellParse.TrailingSpaceTooMany`).
- `ShellParse.Split` sets too_much_args by the corrected test, so 99 words followed by " \n" are not flagged, while the C code flags them.
- `ShellParse.ParseCommand` leaves too_much_args as the corrected `ShellParse.Parsed` describes, not as written.
- `ShellParse.HandleLine` runs a line of 99 words followed by " \n", which main as written skips as too long.
- `MultilevelBf.Heap.Malloc` rounds the request up without size_t wrap-around. As written, the 31 largest sizes, such as malloc(SIZE_MAX), round to 0 and are handed a chunk; the model returns NULL for them (see Findings, `MultilevelBf.HugeRequestServed`).
- `AiAlloc.Heap.Malloc` computes required_total_size without size_t wrap-around. As written, the 63 largest sizes, such as malloc(SIZE_MAX - 39), wrap to at most 32 and are handed a chunk; the model returns NULL for them (see Findings, `AiAlloc.HugeRequestServed`).
- `MultilevelBf.Heap.Free`: a pointer inside the pool that does not start a current chunk (after a double free whose chunk was absorbed by a neighbour, say) is a no-op in the model, while the C code reads whatever stale or unrelated header bytes lie before it and acts on them.
- `AiAlloc.Heap.Free`: a pointer inside the pool that does not start a current chunk is a no-op in the model, while the C code reads whatever stale or unrelated header bytes lie before it and acts on them.
- `ShellParse.ParseCommand` does not model the `strcpy` of a file name into the 256-byte `infile`/`outfile` buffers overflowing for long names; file names are unbounded strings.
- `ShellParse.HandleLine`: `getline` is a parameter, and the bytes after an embedded NUL are not looked at.
- `ShellTry.HandleTry` requires each of the two lists to get fewer than 64 tokens, because the C code never bounds `arg_idx`.
- `ShellTry.HandleTry` models `strtok` as `ShellText.Words`. The NUL bytes `strtok` writes into the line are not modelled; tokens are strings.
- `ShellTry.HandleTry` does not model `fgets` cutting a line at 1023 characters.
- `MatrixProduct.AllCases` requires dim*dim to fit in a C `int`, which the C index arithmetic needs.
- `MatrixProduct.AllCases` takes the dimension as a `nat`: a negative dim read by scanf, for which every loop is empty and every case prints checksum 0, is excluded.
- `TarIndex.OctalToInt` returns an unbounded number. The 64-bit `long` overflow of octal_to_int on more than 21 digits is not modelled.
- `TarIndex.ReadHeader` reads the link field as the C string of its 100 bytes. A 100-byte link leaves `linkname` unterminated in the C code, and that is not modelled.
- `TarIndex.NodeList.ParseTar` steps by the corrected `NextHeader`, with unbounded sizes. The `int` narrowing of the size in the walk is exhibited separately (see Findings); getattr and read apply it (`TarOps.Getattr`, `TarOps.Read`).
- `TarArchive.HeaderByte` leaves the checksum field as spaces, because the parser never reads it.
- `TarOps.ReadWindow` does not model `offset + size` overflowing `size_t`.

## Findings

| source | as written | input that shows it | evidently intended | confidence | as-written member | corrected member |
|---|---|---|---|---|---|---|
| hw4/multilevelBF.c:129-138 | round_up_to_32 computes `size - remainder + ALIGNMENT` in size_t, so for the 31 largest sizes it wraps to 0 | malloc(SIZE_MAX): rounds to 0, and find_best_fit(0) hands out a chunk | refuse requests larger than the pool | not executed | PoolLayout.RoundUp32Wraps | PoolLayout.RoundUp32 |
| hw4/ai.c:212-213 | required_total_size = round_up(size) + HEADER_SIZE wraps for the top 63 sizes, and every header qualifies | malloc(SIZE_MAX - 39) on a fresh pool is handed the whole pool | return NULL for requests the pool cannot hold | not executed | AiAlloc.RequiredWraps | AiAlloc.SearchIsBest |
| hw6/111511141.c:112-132 | the size is narrowed into an int, so data_blocks goes negative with C's truncating division: current_offset goes below the header, and the fseek fails or moves the stream backwards | a member whose size field reads 20000000000 (octal, 2 GiB) at offset 0: its first data block is then read as a header and later records get negative data offsets | step past the member's data | not executed | TarArchive.LargeMemberAsWritten | TarIndex.NextHeader |
| hw1/111511141.c:41-44 | `*cmd++ = '\0'` after an unclosed quote moves the cursor past the terminator | the line `echo "hi` followed by a newline | stop at the terminator | not executed | ShellParse.UnclosedQuoteOverrun | ShellParse.Resume |
| hw1/111511141.c:46-50 | `*cmd++ = '\0'` after an unquoted token that ends at the terminator moves the cursor past it, so the loop reads beyond the line | the last input line `ls` without a newline at end of file | stop at the terminator | not executed | ShellParse.LastLineOverrun | ShellParse.Resume |
| hw1/111511141.c:64-67 | too_much_args tests the cursor without skipping separators, so trailing blanks count as more arguments | 99 words followed by " \n" | flag only lines with more than 99 arguments | not executed | ShellParse.TrailingSpaceTooMany | ShellParse.SkipRest |
