# Verified models of the FSBL test runtime and boot formats

This project models, in Dafny, the parts of the repository that carry the most state and arithmetic,
and proves what they promise for all inputs and all runs.

**The cmocka runtime (`FSBL/cmocka.c`).** Its circular doubly linked lists are heap objects
(`Rings`), tied to a ghost sequence of nodes. The symbol trees are rings of rings (`SymbolHeap`,
`LeftoversHeap`); each heap procedure is proved to perform one operation on a tree value
(`SymbolQueues`, `Leftovers`), and that value is proved to be a map from name path to FIFO queue over
every interleaving of registrations, with any counts, and fetches (`SymbolRuns`). `Teardown` takes the rings
apart again, and `Releases` says which records sweep and teardown free. `MockRuntime` adds the records themselves:
reading or releasing an address that is not allocated would be a verification error, and teardown leaves none that
was ever linked. `MockRuns` ties the run laws to the map in the heap, and to what the end-of-test check reports.
`CallOrdering` is the call-ordering automaton on the same rings. `StrReplace` and `StrMatch` are the two
string algorithms, with exact termination and completeness results. `BlockLayout`, `GuardedMemory`, `BlockLists`,
`BlockRuns` and `TestAllocator` are the guarded allocator: address arithmetic, guards and payloads in a
byte memory, the ring of blocks whose nodes lie inside the memory being freed, and the leak check;
`AllocatorRuns` performs whole tests on it. `RunTests` and `GroupTests` are the two runners.

**The firmware.** `BootDecision` is the boot-mode machine of `UefiMain`. `BootTrailer` pairs the Python
signer with the C verifier. `BaseAnswer` is the record in the shared configuration block, `PemWrapper` the
64-column PEM wrapper, `BankImage` the bank built by Python slice assignment and read back through a C union.

How the models are cut:

- `longjmp` out of a test is a failing result that ends the operation. Calls into libraries, firmware services
  and the operating system are parameters: the address a libc `malloc` returns, what a test function does, the
  status of each UEFI call, the hash, signature and AES-GCM functions with only their agreement assumed.
- `WILL_RETURN_ONCE` is -2, as defined at `SBCPkg/Application/FSBL/cmocka.h:176`.
- C strings are sequences without their terminator, except where the terminator is the point (`StrReplace`
  works on the NUL-terminated buffer, `PemWrapper` on the buffer with the NUL that `Base64Encode` counts).

Where the code falls short of what one would expect of it, the model follows the code, and the exact condition is a theorem:

- `c_strmatch` never tries the empty suffix after a `*`. It is right on all strings exactly for patterns that do not
  end in two stars (`StrMatch.CompleteIff`); for every pattern, what it really decides is `StrMatch.Effective`.
- `c_strreplace` does not terminate exactly when the replacement equals the pattern, the pattern occurs, and there is
  room (`StrReplace.TerminatesIff`); that is the only precondition of its model besides a terminated buffer.
- `_function_called` reads through the list head's NULL value exactly when one skippable expectation with another name
  is left (`CallOrdering.NullIff`).
- `_expect_check` accepts a count of 0. In every tree such an entry is reported missing once and delivered ever after
  (`SymbolRuns.ZeroCountMissesOnce`), and after any run a fetch of a non-empty queue fails exactly when such an entry
  has its first turn (`SymbolRuns.FetchFailsIff`).
- `_will_return` allocates its record before it refuses a count of 0, so that record is linked nowhere
  (`MockRuntime.WillReturn`) and survives the teardown (`MockRuntime.TeardownTesting`).
- `_run_tests` prints executed minus failed as the number of passed tests; that is right exactly when no failed teardown
  was counted, and wraps around exactly when such teardowns outnumber the passing tests (`RunTests.PassedBalance`).
- `global_skip_test` survives a `skip()` in a fixture. A group that returns 0 hides a failed body exactly when it was
  entered with the flag up and its first body that is not good fails (`GroupTests.HiddenFailureIff`, `GroupTests.ZeroIff`).
- A failed SSBL check is reported but does not stop the boot: it is not among the exact conditions of a start
  (`BootDecision.StartedIff`, `BootDecision.SsblCheckDoesNotGate`).
- The check of the certificate against the root CA is commented out: an image is accepted exactly when the certificate it
  brings along checks its signature (`BootTrailer.OwnCertificateDecides`).
- `_test_realloc` of a block with damaged guards fails with both blocks listed (`TestAllocator.Allocator.ReallocBlock`).
- The signer's trailer counts characters, the file holds bytes: parsing recovers the pieces exactly for ASCII strings
  (`BootTrailer.RoundTripIff`).
- `SBC_AESEncrypt` drops the status of the GCM call, so a failed encryption stores a record that overwrites its neighbour
  (`BaseAnswer.FailedEncryptionOverwrites`), and validation compares only as many bytes as the answer has
  (`BaseAnswer.StoreThenValidate`), reading past its buffer exactly for a longer answer that agrees with all of it
  (`BaseAnswer.Validate`).
- `Base64Encode` counts its NUL, so the PEM text read as a C string ends before the footer (`PemWrapper.FooterBehindNul`).
- The SSBL slot of a bank image holds the FSBL's bytes (`BankImage.BankReadsBack`, `BankImage.SsblSlotDiffers`).

## Model

| member | source | states |
|---|---|---|
| Rings.LinksAreInverse | FSBL/cmocka.c:604-627 | on every node of a ring, the head included, next and prev stay inside the ring and undo each other |
| Rings.RingIsUnique | FSBL/cmocka.c:126-132 | the links determine the node sequence: a head heads exactly one ring |
| Rings.ListInitialize | FSBL/cmocka.c:580-586 | the node heads the empty ring |
| Rings.ListAdd | FSBL/cmocka.c:605-613 | the new node becomes the last of the ring's sequence |
| Rings.ListAddValue | FSBL/cmocka.c:593-601 | a fresh node with the given value and count becomes the last one |
| Rings.ListRemove | FSBL/cmocka.c:617-636 | exactly that node leaves the sequence, the rest keeps its order, the node keeps its own links; the value for the cleanup function is the node's |
| Rings.ListEmpty | FSBL/cmocka.c:657-660 | true exactly for the ring with no node but the head |
| Rings.ListFirst | FSBL/cmocka.c:681-690 | the first node, or 0 exactly on the empty list |
| Rings.ListFind | FSBL/cmocka.c:667-678 | the first node with a matching symbol name, or 0 exactly when none matches |
| Rings.ListFree | FSBL/cmocka.c:645-653 | terminates with the head alone, and the cleanup function gets every value once, in list order |
| SymbolQueues.AddWellFormed | FSBL/cmocka.c:734-765 | registration keeps names unique per level and every child list non-empty |
| SymbolQueues.AddLookup | FSBL/cmocka.c:734-765 | registering under a path appends to that path's queue and changes no other path |
| SymbolQueues.GetWellFormed | FSBL/cmocka.c:774-823 | a fetch keeps names unique per level and every child list non-empty |
| SymbolQueues.GetOutcome | FSBL/cmocka.c:785-822 | in a well-formed tree the assertion at line 798 never fires, and a fetch misses exactly when the path's queue is empty, otherwise it returns the front entry with its old count |
| SymbolQueues.GetLookup | FSBL/cmocka.c:774-823 | a fetch consumes its own path's queue once and changes no other path |
| SymbolQueues.ConsumeMeans | FSBL/cmocka.c:803-809 | a count of 1 takes the entry out, one of -2 or below stays, any other goes down by one, so a -1 that was used once is a -2 |
| SymbolRuns.TurnOfEntry | FSBL/cmocka.c:803-809 | after the counts of the entries before it are used up, an entry is fetched for exactly its count, or for ever when its count is not positive; only the first fetch of a count 0 fails |
| SymbolRuns.FailureIff | FSBL/cmocka.c:803-809 | the n-th fetch of a queue fails exactly when an entry with count 0 has its first turn then |
| SymbolRuns.RemainingStep | FSBL/cmocka.c:803-809 | counting down in place, as `SymbolQueues.ConsumeMeans` says in numbers, yields the next answer of the reference queue, for every count |
| SymbolRuns.FifoRun | FSBL/cmocka.c:734-823 | over every interleaving of registrations with any counts and fetches on all paths, the i-th answer for a path is the i-th answer of the queue registered there, and what is stored is what that queue still owes |
| SymbolRuns.NextFetch | FSBL/cmocka.c:950-978 | after any run the next fetch misses exactly when the reference queue owes nothing, otherwise it finds that queue's next record, and its count is 0 exactly when the reference answer is a failure |
| SymbolRuns.FetchFailsIff | FSBL/cmocka.c:950-978 | after any run a fetch fails on a non-empty queue exactly when the entry whose turn it is was registered with count 0 and not yet fetched |
| SymbolRuns.FrontStays | FSBL/cmocka.c:803-809 | in every tree, an entry whose count is not positive stays at the front for ever, and fetch n finds it with its count less n, but never counted below -2 |
| SymbolRuns.ZeroCountMissesOnce | FSBL/cmocka.c:1076-1091 | in every well-formed tree, a queue that starts with a count 0 is reported missing by the first fetch and delivers that entry on every later one |
| SymbolRuns.RegisterAccounted | FSBL/cmocka.c:1057-1067 | registering a record at an unused address keeps allocated records and linked records in one-to-one correspondence |
| SymbolRuns.FetchAccounted | FSBL/cmocka.c:803-818 | the record delivered was allocated, and it is unlinked exactly when the fetch returns 1 |
| SymbolRuns.RecordsAccounted | FSBL/cmocka.c:953-962 | over every run the allocated records are exactly the linked ones, each on one node: none is released twice, used after release or leaked |
| SymbolHeap.FindOrAddSymbol | FSBL/cmocka.c:746-754 | the symbol of that name, appended with an empty child list if it was absent |
| SymbolHeap.AddSymbolValue | FSBL/cmocka.c:734-765 | the rings under the head represent the tree value with the entry added, at any depth |
| SymbolHeap.TakeFirst | FSBL/cmocka.c:795-809 | the queue's first node is delivered with its old count, unlinked when that was 1, counted down when it was above -2, and left alone otherwise |
| SymbolHeap.RemoveSymbol | FSBL/cmocka.c:815-817 | the symbol leaves its level and the rings of the others stay in place |
| SymbolHeap.GetSymbolValue | FSBL/cmocka.c:774-823 | outcome and resulting rings are those of the fetch on the tree value, at any depth |
| Leftovers.SweepWellFormed | FSBL/cmocka.c:851-882 | the sweep keeps the tree invariant |
| Leftovers.SweepLookup | FSBL/cmocka.c:851-882 | on every path the sweep drops the first entry exactly when its count is below -1 |
| Leftovers.NoLeftovers | FSBL/cmocka.c:851-946 | after the sweep nothing is reported exactly when every path is empty or holds one entry with count below -1 |
| LeftoversHeap.VisitSymbol | FSBL/cmocka.c:857-881 | one turn of the walk: the next node saved before a possible unlinking is the right one afterwards |
| LeftoversHeap.RemoveAlwaysReturnValues | FSBL/cmocka.c:851-882 | walking and unlinking at once leaves rings that represent the swept tree, at any depth, and releases the records of the swept entries in list order |
| LeftoversHeap.CheckForLeftoverValues | FSBL/cmocka.c:908-946 | the number of symbols whose child list is not empty |
| Releases.CollectDistinct | FSBL/cmocka.c:645-722 | where every record hangs on one node, neither the sweep nor the teardown meets a record twice |
| Releases.SweepAccounted | FSBL/cmocka.c:851-882 | the sweep releases allocated records only, none twice, and afterwards the allocated records are again exactly the linked ones |
| Releases.TeardownAccounted | FSBL/cmocka.c:566-577 | the teardown releases exactly the records still allocated, none twice |
| Teardown.RemoveFirstSymbol | FSBL/cmocka.c:631-653 | the first symbol leaves its level, and the list below it and the rest of the level stay intact and apart |
| Teardown.FreeSymbols | FSBL/cmocka.c:645-722 | list_free with its recursive cleanup empties the rings at any depth and releases every record in list order |
| MockRuntime.SymbolMap.constructor | FSBL/cmocka.c:526-534 | an empty map with no records allocated |
| MockRuntime.SymbolMap.Register | FSBL/cmocka.c:1057-1091 | the record is allocated and its entry queued last on its path; the record invariant is kept |
| MockRuntime.SymbolMap.Fetch | FSBL/cmocka.c:950-978 | the front record of the path, read while allocated and released exactly on its last use; the error path exactly when none is queued or its count was 0 |
| MockRuntime.SymbolMap.LeftoversAfterSweep | FSBL/cmocka.c:540-545 | the map after the sweep, the swept records released and the record invariant kept, and the number of its symbols with leftovers, 0 exactly when no path owes anything |
| MockRuntime.SymbolMap.Release | FSBL/cmocka.c:694-698 | exactly these records leave the map, and each is allocated when its turn comes |
| MockRuntime.SymbolMap.FreeAll | FSBL/cmocka.c:566-577 | the map is empty again, every linked record is released, and exactly the records linked nowhere stay allocated |
| MockRuntime.FetchSound | FSBL/cmocka.c:785-818 | a fetch keeps the tree and record invariants together |
| MockRuntime.WillReturn | FSBL/cmocka.c:1057-1067 | allocates the record always and queues it exactly for a count other than 0; otherwise the record is linked nowhere |
| MockRuntime.CheckExpected | FSBL/cmocka.c:1724-1766 | passes exactly when an expectation is queued for function and parameter and its check accepts the value; its record is released exactly on its last use |
| MockRuntime.FailIfLeftoverValues | FSBL/cmocka.c:537-563 | fails exactly when some path of either map holds more than it may, or a call that may not be skipped was not made |
| MockRuntime.FreeCalls | FSBL/cmocka.c:574-575 | the list of expected calls is empty, its entries released in order |
| MockRuntime.TeardownTesting | FSBL/cmocka.c:566-577 | all three lists are empty, and exactly the records that were linked nowhere stay allocated |
| MockRuns.RunFetch | FSBL/cmocka.c:950-978 | after any run on the map, what a fetch returns is the record the FIFO queues promise, or the error path where they promise none |
| MockRuns.Run | FSBL/cmocka.c:734-823 | any run of registrations and fetches on a new map ends with the tree and the records of that run on values, and every fetch got what the queues promised |
| MockRuns.MayRemainIff | FSBL/cmocka.c:803-809 | what a queue holds after n answers may remain exactly when all counts were positive and are used up, or only the last was not and it is below -1, or -1 and answered once, or 0 and answered twice |
| MockRuns.NothingOwedAfter | FSBL/cmocka.c:851-946 | after any run, nothing is owed exactly when that holds of the counts registered under every path and the answers it gave |
| MockRuns.RunAndCheck | FSBL/cmocka.c:537-552 | any run on a new map in the heap followed by sweep and check: nothing is reported exactly under that condition |
| CallOrdering.ExpectFunctionCall | FSBL/cmocka.c:1099-1117 | the expectation is queued last, on a fresh node |
| CallOrdering.SearchOn | FSBL/cmocka.c:1003-1030 | the walk past skippable entries stops at the first one that matches or may not be skipped, or at the head |
| CallOrdering.FunctionCalled | FSBL/cmocka.c:981-1054 | verdict and resulting ring are those of the automaton on the list of expectations |
| CallOrdering.AcceptedIff | FSBL/cmocka.c:989-1045 | a call is accepted exactly when it names an entry preceded only by skippable ones, and uses the first such entry; otherwise nothing changes |
| CallOrdering.NullIff | FSBL/cmocka.c:1003-1007 | the NULL value of the head is read exactly when the list is one skippable entry with another name |
| CallOrdering.UseKeepsOthers | FSBL/cmocka.c:1033-1036 | using an entry removes it at count 1, counts it down above, makes a -1 a -2, changes nothing below, and leaves all others alone |
| CallOrdering.DueHead | FSBL/cmocka.c:1033-1036 | a positive count is due that many times, -1 once, anything below never |
| CallOrdering.FreeGrows | FSBL/cmocka.c:1003-1036 | a skippable entry that was reached stays callable after every accepted call |
| CallOrdering.FreeIff | FSBL/cmocka.c:1003-1036 | after n due calls the free names are exactly those of entries with a count below -1 that were reached, and with -1 whose one due call was made |
| CallOrdering.TracesFollow | FSBL/cmocka.c:981-1054 | for any counts, the accepted traces are exactly those in which every call is free at its time or the next one due, and what is left of the list is due and free accordingly |
| CallOrdering.CompleteRuns | FSBL/cmocka.c:555-559 | for any counts, a test ends without a report exactly when its trace follows the list and makes all due calls |
| CallOrdering.TracesArePrefixes | FSBL/cmocka.c:981-1054 | with positive counts the accepted traces are exactly the prefixes of f1^c1 f2^c2 ..., and the rest of that word is still due |
| CallOrdering.CompleteTraces | FSBL/cmocka.c:555-559 | with positive counts a test ends without a report exactly when its trace is the whole word |
| CallOrdering.NoCallsLeft | FSBL/cmocka.c:831-844 | the sweep leaves exactly the entries with a count of -1 or more |
| CallOrdering.RemoveAlwaysFromList | FSBL/cmocka.c:831-844 | unlinking while walking leaves a ring that represents the swept list |
| CallOrdering.CheckForLeftoverCalls | FSBL/cmocka.c:884-902 | the number of nodes left |
| StrReplace.StrStr | FSBL/cmocka.c:436 | the first occurrence, or none exactly when the pattern does not occur |
| StrReplace.TerminatesIff | FSBL/cmocka.c:436-464 | some turn is the last one exactly when the loop does not replace an occurring pattern by itself with room to do so |
| StrReplace.MeasureDecreases | FSBL/cmocka.c:441-462 | every other turn shortens the text, uses up room, or moves the text strictly one way as a base-256 number |
| StrReplace.ReplaceKeeps | FSBL/cmocka.c:436-464 | on 0 no occurrence is left; on -1 there was none, or one is left and src_len exceeds the text by no more than the longer of pattern and replacement and 1; the text stays within src_len; str_replaced is set exactly when something was replaced |
| StrReplace.ReplaceIsSubst | FSBL/cmocka.c:428-465 | if the replacement shares no byte with the pattern, success means ordinary left-to-right global substitution |
| StrReplace.Turn | FSBL/cmocka.c:452-456 | memmove and memcpy turn the buffer into the text with one occurrence replaced, terminated, and touch nothing beyond it |
| StrReplace.StrReplaceInPlace | FSBL/cmocka.c:428-465 | terminates with return code, text and flag of the rewriting, all writes below src_len |
| StrMatch.StrMatch | FSBL/cmocka.c:467-523 | the nested loops with recursion decide the recursive matching predicate |
| StrMatch.GlobAtom | FSBL/cmocka.c:477-519 | the declarative meaning on one character: `*` takes every string, `?` every one-character string, any other character itself |
| StrMatch.GlobConcat | FSBL/cmocka.c:477-519 | and on longer patterns: exactly the strings that split into one for each part |
| StrMatch.MatchIsSound | FSBL/cmocka.c:467-523 | whatever is accepted matches the pattern's declarative meaning |
| StrMatch.MatchIsEffectiveGlob | FSBL/cmocka.c:467-523 | for all strings and patterns, what is decided is the meaning of the pattern with a final run of two or more stars read as `?*` |
| StrMatch.TwoStarsMiss | FSBL/cmocka.c:486-505 | every pattern ending in two stars rejects its own shortest match |
| StrMatch.CompleteIff | FSBL/cmocka.c:467-523 | the matcher is right on all strings exactly when the pattern does not end in two stars |
| BlockLayout.OverflowCheckIsExact | FSBL/cmocka.c:2066-2068 | the assertion refuses exactly the requests whose total, size + 32 + record + alignment, does not fit size_t |
| BlockLayout.MaskRoundsDown | FSBL/cmocka.c:2074-2076 | and-ing with ~(2^k - 1) rounds down to a multiple of 2^k |
| BlockLayout.LayoutFits | FSBL/cmocka.c:2074-2084 | for every block, size and power-of-two alignment the payload is aligned and at most one alignment behind record and guard of 16, and record, guards and payload lie disjoint inside the allocation |
| GuardedMemory.ApartUnaffected | FSBL/cmocka.c:2109-2151 | a change inside one allocation leaves guards and payload of every other one as they were |
| GuardedMemory.SoundAdd | FSBL/cmocka.c:2083-2090 | a new block disjoint from the live ones keeps all blocks laid out and disjoint, and its pointer is new |
| GuardedMemory.Memory.Place | FSBL/cmocka.c:2066-2089 | fails exactly on overflow or NULL; otherwise the block is laid out, guarded and filled, and no byte outside it changes |
| GuardedMemory.FilledMeans | FSBL/cmocka.c:2083-2089 | byte by byte: 16 bytes of 0xEF before and behind the payload, 0xBA in it, and no change outside the allocation |
| GuardedMemory.Memory.CheckGuard | FSBL/cmocka.c:2124-2143 | the signed-char comparison accepts exactly the untouched guard |
| GuardedMemory.IntactMeans | FSBL/cmocka.c:2124-2143 | a block is intact exactly while the 16 bytes before and the 16 behind its payload are 0xEF |
| GuardedMemory.Memory.Discard | FSBL/cmocka.c:2119-2150 | refused exactly when a guard byte changed; otherwise the whole allocation is overwritten and nothing else changes |
| GuardedMemory.WipedMeans | FSBL/cmocka.c:2145-2150 | byte by byte: 0xCD in the whole allocation, every other byte as it was |
| GuardedMemory.Memory.CopyPayload | FSBL/cmocka.c:2186 | the bytes are carried over and no guard of either block is touched |
| GuardedMemory.OthersIntact | FSBL/cmocka.c:2109-2151 | freeing one block leaves the guards of all others as they were |
| GuardedMemory.ApartFromBoth | FSBL/cmocka.c:2155-2192 | reallocating leaves guards and payload of every block but the two involved as they were |
| BlockLists.AddRecord | FSBL/cmocka.c:2089-2090 | the node inside the record joins the ring as the last one |
| BlockLists.RemoveRecord | FSBL/cmocka.c:2145-2149 | the ring is right without the node, although the node itself is overwritten |
| BlockLists.BlockList.Link | FSBL/cmocka.c:2089-2090 | the ring lists the block last, and its history grows by the allocation |
| BlockLists.BlockList.Unlink | FSBL/cmocka.c:2145-2149 | the ring lists the others in their order, and its history grows by the release |
| BlockLists.BlockList.CheckPoint | FSBL/cmocka.c:2196-2198 | the prev link of the head is the node of the last block, or the head, and a check point of the history so far |
| BlockLists.BlockList.Display | FSBL/cmocka.c:2203-2226 | following next from the check point meets exactly the blocks listed after it, in order |
| BlockLists.GrownCheckPoint | FSBL/cmocka.c:2089-2198 | linking a block keeps every check point on its node |
| BlockLists.ShrunkCheckPoint | FSBL/cmocka.c:2145-2198 | unlinking a block keeps every check point on its node, unless it is the block the check point stands on |
| BlockLists.LeakPoint | FSBL/cmocka.c:2196-2260 | the blocks behind a check point are there exactly when something allocated since was not released |
| TestAllocator.Allocator.constructor | FSBL/cmocka.c:1971-1978 | an empty ring and no records satisfy the invariant |
| TestAllocator.Allocator.Malloc | FSBL/cmocka.c:2059-2092 | fails exactly on overflow or NULL, changing nothing; otherwise the block is laid out, guarded, filled and linked last in the ring, and no byte outside it changes |
| TestAllocator.Allocator.Free | FSBL/cmocka.c:2109-2151 | NULL is ignored; refused exactly when a guard byte changed, leaving everything as it was; otherwise exactly that node leaves the ring, the record goes, the block is overwritten, and nothing else changes |
| TestAllocator.Allocator.ReallocBlock | FSBL/cmocka.c:2174-2191 | succeeds exactly when the request fits, a block was found and the old guards hold; then every payload byte both sizes have is carried over, the new node joins the ring and the old one leaves it, and no byte outside the two blocks changes; with damaged guards both stay listed |
| TestAllocator.Allocator.Realloc | FSBL/cmocka.c:2155-2192 | NULL allocates, size 0 frees, otherwise payload byte i is the old one for every i below both sizes; result, ring, records and bytes in every case, failures included |
| TestAllocator.PayloadMoved | FSBL/cmocka.c:2182-2186 | of two blocks of any sizes, byte i of the new payload is byte i of the old one whenever both have it |
| TestAllocator.Allocator.FreeNext | FSBL/cmocka.c:2239-2245 | one turn: the next link was read before the node was overwritten, so it is the next node of what is left |
| TestAllocator.Allocator.FreeAllocatedBlocks | FSBL/cmocka.c:2230-2247 | walking the links while freeing restores exactly the check point's list, unless a guard behind it was damaged |
| TestAllocator.Allocator.FailIfBlocksAllocated | FSBL/cmocka.c:2251-2260 | fails exactly when blocks are listed after the check point |
| TestAllocator.Allocator.FailIfLeaked | FSBL/cmocka.c:2251-2260 | for a check point whose block is still listed, fails exactly when some block allocated since was not released |
| AllocatorRuns.Perform | FSBL/cmocka.c:2059-2192 | every request, failed ones included, does to the list what its result says, does to records and bytes what `Next` says, and keeps the check point |
| AllocatorRuns.FailsIff | FSBL/cmocka.c:2059-2192 | a request fails exactly when size + 32 + record + alignment does not fit size_t or libc malloc returned NULL, or the block to be freed has a damaged guard |
| AllocatorRuns.RunTest | FSBL/cmocka.c:2905-2932 | a test of any requests and stores that never frees the block under its check point goes request by request through states related by `Next`, stops at the first failure or the first request its callers must not make, and if all are served passes exactly when every block it allocated was released |
| BlockRuns.ListSplits | FSBL/cmocka.c:2059-2192 | over every run the list is the surviving old blocks followed by the run's own live blocks, each in allocation order |
| BlockRuns.KeptIff | FSBL/cmocka.c:2059-2192 | a block of the run is listed at its end exactly when it was not released, even if addresses are reused |
| BlockRuns.LeakCheck | FSBL/cmocka.c:2196-2260 | with the check point still listed, the blocks after it are exactly those allocated since and not released, so nothing is behind it exactly when all were released |
| RunTests.RunTests | FSBL/cmocka.c:3324-3476 | all writes to the state stack and the failed names are in bounds; entries run, return code and exits are those of the reference machine |
| RunTests.LogIsExpected | FSBL/cmocka.c:3383-3450 | an entry is run exactly when it is a setup or the last setup before it did not fail: nothing runs between a failed setup and the next setup |
| RunTests.LogIs | FSBL/cmocka.c:3383-3450 | in terms of the list alone: the log is strictly increasing, and holds exactly the entries with a function that are setups or whose last setup before them, if any, did not fail |
| RunTests.DepthIsBalance | FSBL/cmocka.c:3390-3412 | stack depth is setups minus teardowns, and the program exits exactly on an invalid entry or a teardown without open setup |
| RunTests.StackIsOpenSetups | FSBL/cmocka.c:3390-3406 | the stack holds the open setups in order, so a teardown gets the state of the nearest open setup |
| RunTests.CountersAre | FSBL/cmocka.c:3414-3450 | the counters are closed-form counts over the list: a failed teardown counts unless the test before it already did |
| RunTests.FailuresCounted | FSBL/cmocka.c:3414-3450 | the number of failures is that of the logged entries that failed, less the teardowns after a failed test |
| RunTests.PassedBalance | FSBL/cmocka.c:3453-3455 | executed + failed teardowns = failed + passed, and exactly when the printed difference is right or wraps around |
| RunTests.ReturnCode | FSBL/cmocka.c:3466-3476 | for fewer than 2^31 entries the number of failures when setups and teardowns match and -1 otherwise, so 0 exactly when they match and nothing that ran failed; from 2^31 entries on, exactly which counts the cast to int adds |
| GroupTests.StatusMeans | FSBL/cmocka.c:2980-3061 | PASSED exactly when setup, body and teardown succeeded; ERROR exactly when a fixture did not; SKIPPED exactly when a failing body skipped or found the flag up |
| GroupTests.FlagAfterOne | FSBL/cmocka.c:2980-3061 | the flag one test leaves, in every case: up after a fixture that skips; a setup that fails leaves it; a body that fails or skips takes it down |
| GroupTests.FlagAt | FSBL/cmocka.c:3134-3195 | the flag goes from each test to the next |
| GroupTests.Includes | FSBL/cmocka.c:3091-3111 | a test is included exactly when it has a name and some function, the filter, if any, accepts its name and the skip filter, if any, does not, each read as its effective glob |
| GroupTests.Prepare | FSBL/cmocka.c:3091-3119 | the prepared array is the tests at a strictly increasing sequence of indices, which holds exactly the included ones: in order, none dropped, none twice, written in bounds |
| GroupTests.Execute | FSBL/cmocka.c:3134-3195 | the counters are the numbers of tests with each status |
| GroupTests.CountersMean | FSBL/cmocka.c:3134-3195 | each counter is the multiplicity of its status |
| GroupTests.RunGroupTests | FSBL/cmocka.c:3063-3241 | the tests run are exactly the included ones in order; counters, return code with its cast to int and the flag left behind, for every outcome of fixtures, allocation and leak check |
| GroupTests.CountsAddUp | FSBL/cmocka.c:3134-3195 | executed = passed + failed + errors + skipped |
| GroupTests.ResultIsZeroIff | FSBL/cmocka.c:3240 | nothing is counted as failed or in error exactly when every selected test passed or was skipped |
| GroupTests.FlagStaysDown | FSBL/cmocka.c:3023-3032 | while no fixture skips, only a test that skips itself is called skipped |
| GroupTests.FlagAfter | FSBL/cmocka.c:3023-3032 | with good fixtures the flag is up after the tests exactly when it was up before them and every body was good |
| GroupTests.ZeroIff | FSBL/cmocka.c:3134-3240 | exactly when nothing is counted as failed, in terms of the tests: all fixtures good, and no body fails but the first one that is not good under a flag up on entry |
| GroupTests.ReturnsZeroIff | FSBL/cmocka.c:3240 | for fewer than 2^31 tests the int returned is 0 exactly under that condition and a good group setup; the group teardown has no part in it |
| GroupTests.HiddenFailureIff | FSBL/cmocka.c:3023-3032 | a result of 0 hides a failed body exactly when the flag was up on entry and the first body that is not good fails |
| GroupTests.StaleFlagHidesFailure | FSBL/cmocka.c:3023-3032 | the smallest instance: one plain failure is counted as skipped with the flag up, as failed with it down |
| BootDecision.CurrentBank | FSBL/fsbl_main.c:721-734 | the bank, in terms of the preference bytes: the first two of the first group of four that ends in the letter C (0x43) |
| BootDecision.FindPreviouslyBank | FSBL/fsbl_main.c:397-413 | exchanges banks 1 and 2, never 0, and maps nothing else to a bank |
| BootDecision.TargetIs | FSBL/fsbl_main.c:721-742 | the bank a mode boots, in terms of the preference bytes: the current one, in mode 3 the other one |
| BootDecision.WriteSsbl | FSBL/fsbl_main.c:354-368 | succeeds exactly when some handle accepts the file |
| BootDecision.BootBank | FSBL/fsbl_main.c:262-393 | the SSBL is started exactly when the bank is 1 or 2 and every step before it succeeded |
| BootDecision.UefiMain | FSBL/fsbl_main.c:680-996 | the log is the reference log; verification, key generation, each start and the shutdown are in it exactly under the results of the calls that allow them; the return status in closed form over the same results |
| BootDecision.GatesLogged | FSBL/fsbl_main.c:746-772 | FSBL verification is logged exactly when it succeeded, key generation exactly when both did |
| BootDecision.LoggedOnce | FSBL/fsbl_main.c:746-991 | no event is logged twice |
| BootDecision.StartsAreTrusted | FSBL/fsbl_main.c:746-772 | if anything is started, both FSBL verification and DICE key generation returned success, and both stand before it in the log |
| BootDecision.StartedBank | FSBL/fsbl_main.c:774-965 | outside factory mode only bank 1 or 2 is started, the other one exactly in recovery mode |
| BootDecision.HeaderWrites | FSBL/fsbl_main.c:853-856 | only factory mode writes the header: once if the key mode was not NORMAL, never otherwise |
| BootDecision.HeaderWrittenIs | FSBL/fsbl_main.c:981-987 | what is written differs from the header read in the key mode alone |
| BootDecision.HeaderLogged | FSBL/fsbl_main.c:853-987 | a header is written exactly in mode 4 with a key mode other than 1, and it is the header read with key mode 1 |
| BootDecision.FactoryLogged | FSBL/fsbl_main.c:840-991 | in mode 4 the factory image is started exactly when both gates succeeded and the device was accepted where that is checked, and the machine is shut down exactly otherwise |
| BootDecision.SsblCheckLogged | FSBL/fsbl_main.c:778-965 | the SSBL is checked exactly behind both gates in modes 1 to 3 with the check built in, on the bank that mode boots |
| BootDecision.StartedIff | FSBL/fsbl_main.c:746-965 | a bank is started exactly when FSBL verification, key generation, the device check where built in, handle, header, pool, image read and some write succeeded, in modes 1 to 3, and it is bank 1 or 2 as the preference bytes say, the other one in mode 3 |
| BootDecision.SsblCheckDoesNotGate | FSBL/fsbl_main.c:778-790 | the same banks are started whatever the SSBL check says, and a bank is started with its check passed exactly when the check is built in and passes |
| BootTrailer.EncodedLength | FwSignPy/fw_sign.py:23-24 | the encoding has one byte per character exactly for ASCII text |
| BootTrailer.AsciiIsEncoded | FwSignPy/fw_sign.py:23-24 | ASCII text is its own encoding, byte for byte |
| BootTrailer.DecodeEncode | FwSignPy/fw_sign.py:23-24 | a decoder that goes by the lead byte gives back every text |
| BootTrailer.MakeFsblImage | FwSignPy/fw_sign.py:51-77 | refuses exactly text with surrogates, then exactly lengths that do not fit their signed fields; otherwise the file is the five pieces and the eight trailer bytes |
| BootTrailer.Parse | FSBL/SBC_AntiTampering.c:1296-1341 | the pieces tile the file with the lengths its last eight bytes give; out of bounds exactly when they claim more than the file holds |
| BootTrailer.TilesUnique | FSBL/SBC_AntiTampering.c:1296-1341 | a file has at most one such tiling |
| BootTrailer.RoundTripIff | FwSignPy/fw_sign.py:51-77 | parsing the signer's output recovers all five pieces exactly when both strings are ASCII |
| BootTrailer.FsblVerify | FSBL/SBC_AntiTampering.c:1296-1397 | rejects exactly when the certificate's key does not check the signature over the hash of the image piece, otherwise returns the answer piece, unless its buffer cannot be allocated |
| BootTrailer.OwnCertificateDecides | FSBL/SBC_AntiTampering.c:1345-1385 | any content is accepted exactly when the certificate in the same file can be parsed and checks the signature, and the answer handed on is the one written, byte for byte; no root certificate takes part |
| BootTrailer.SignThenVerify | FSBL/SBC_AntiTampering.c:1360-1397 | an image signed over its own digest is accepted, and each byte of the answer returned is the character that was written |
| PemWrapper.LinesAre | FSBL/SBC_EccSignVeriify.c:468-475 | every line has 64 characters but the last with 1 to 64, and together they are the text |
| PemWrapper.WrapAt | FSBL/SBC_EccSignVeriify.c:468-475 | character i stands at i + i / 64, byte 10 behind every full 64 that are not the last, and nothing else |
| PemWrapper.WrapLength | FSBL/SBC_EccSignVeriify.c:445 | the closed form is the number of newlines inserted |
| PemWrapper.UnwrapWrap | FSBL/SBC_EccSignVeriify.c:468-475 | deleting the newlines gives the text back |
| PemWrapper.SizeIsExactIff | FSBL/SBC_EccSignVeriify.c:445-455 | the computed size is what the loop and the copies write for every non-empty text, and not for the empty one |
| PemWrapper.WrapInto | FSBL/SBC_EccSignVeriify.c:469-475 | the loop with its column counter writes the wrapped text |
| PemWrapper.ConvertRawKeyPem | FSBL/SBC_EccSignVeriify.c:445-487 | every write is in bounds and the buffer is filled exactly: header, byte 10, wrapped text, 10, footer, 10, 0 |
| PemWrapper.FooterBehindNul | FSBL/SBC_EccSignVeriify.c:422-475 | with the NUL that Base64Encode counts, the C string ends with the body, and behind that NUL lie byte 10, the footer, 10 and 0 |
| BaseAnswer.Store | FSBL/SBC_AntiTampering.c:702-716 | the record replaces the bytes at its offset and nothing else |
| BaseAnswer.StoredBytes | FSBL/SBC_AntiTampering.c:702-716 | byte by byte: length word at 0x40, ciphertext, 12 bytes of IV, 16 of tag, 16 zeros, everything else as it was |
| BaseAnswer.Extract | FSBL/SBC_AntiTampering.c:768-782 | for every block: a record is returned exactly when its length word, ciphertext, IV and tag lie at the offset; nothing exactly for a zero length word, an overrun exactly above 256 |
| BaseAnswer.ExtractStored | FSBL/SBC_AntiTampering.c:702-782 | the record a block holds after storing is exactly the one stored, in every block |
| BaseAnswer.NeighboursKeptIff | FSBL/SBC_AntiTampering.c:702-716 | bytes outside 0x40 to 0x7F survive in all blocks exactly for at most 16 bytes of ciphertext |
| BaseAnswer.FailedEncryptionOverwrites | FSBL/SBC_CryptAES.c:181-183 | after a failed encryption the stored record is 256 zeros with a zero tag, and does not keep its neighbours |
| BaseAnswer.ComparedBytes | FSBL/SBC_AntiTampering.c:1040-1057 | an answer is accepted exactly when it has at most 512 bytes, each that of the plaintext or 0 behind it; it is read past the buffer exactly when it is longer and agrees with all 512 |
| BaseAnswer.Validate | FSBL/SBC_AntiTampering.c:1000-1057 | for every block and answer: succeeds exactly when the block holds a record whose plaintext, padded with zeros to 512 bytes, starts with the answer; reads past the buffer exactly when the answer goes on behind it; the other verdicts by the length word |
| BaseAnswer.StoreThenValidate | FSBL/SBC_AntiTampering.c:916-1057 | a stored message validates, as does every prefix of it, and nothing that is not a prefix of it padded with zeros; up to 16 bytes nothing else in the block changes |
| BankImage.InsertSlot | FwSignPy/rawprt.py:61-79 | behind a finished prefix both slice assignments insert, which moves only zeros |
| BankImage.MakeFwImage | FwSignPy/rawprt.py:34-89 | for files that fit, the image is exactly the four slots |
| BankImage.BankBytes | FwSignPy/rawprt.py:34-89 | byte by byte: the slots at 0, 0x400000, 0x800000 and 0x1C00000, each a length word, the content and zeros |
| BankImage.BankReadsBack | FSBL/SBC_FileCtrl.h:133-148 | 128 MiB; the FSBL, OS and software slots read back through the union, the SSBL slot exactly when the SSBL is a prefix of the zero-padded FSBL |
| BankImage.SsblSlotDiffers | FwSignPy/rawprt.py:64 | the SSBL slot does not read back as soon as the files differ in their first byte |

## Left out

- Messages, XML, TAP and subunit output, timing, signal handlers, float comparison and the single assert wrappers of cmocka: output or one-branch checks.
- `cmocka_run_one_test_or_fixture` and `_run_test` as such: their result is a parameter of the runners; the leak check and the leftover check they call are modelled on their own.
- Source locations, initial and group state pointers, and the `NULL` argument guard of `c_strmatch`: they only travel along or return at once.
- Release of list nodes and symbol structures: a freed node is no longer in any ring, but its memory is not modelled; the records at the leaves are.
- TestAllocator.Allocator.Malloc: the bookkeeping record, its list node included, is kept outside the byte memory, so damage to the record itself is not modelled; freeing a block destroys its node.
- Records of the call-ordering list: its nodes carry the function name as a value.
- AllocatorRuns.RunTest: a test that frees the block its check point stands on, or hands the allocator a pointer it does not own, is not followed further; the source then works on freed memory.
- `_test_calloc` and `_run_group_tests`: they add no harder property.
- UEFI services, SMBIOS, NVMe, file systems and image loading: nondeterministic results of the boot machine. The raw partition is taken as found; `UefiMain` goes on with a null handle otherwise.
- SHA-256, ECDSA, X.509 and AES-GCM: parameters with only their agreement assumed. A failed GCM call is taken to leave the zeroed output buffer as it was. `CompareMem` is taken to stop at the first difference.
- `SBC_SSBL_Verify`, the FW and OS identity chain, key derivation: little is left of them in the sources.
- Agreement of `make_bootfw_storage` with the `SYS_CONF_*` offsets, and bank disjointness on the normal boot path: the sources disagree with themselves, and nothing is claimed.
