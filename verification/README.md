# Librarius: a model of its transactions and its storage, with proofs

Librarius keeps objects in versions. An atomic pointer (here a *cell*; a slot in the model's types) heads
a chain of versions, newest first. A transaction reads at a snapshot number, latches every cell it writes
with an uncommitted copy, and commits by storing one number into the log word that all its copies point
at. Beneath that lie pages, bump allocators and a logical address space over several sources of memory.
This project models both layers in Dafny and proves what they are for.

`dafny verify dfyconfig.toml` checks everything.

## How it is built

The protocol is a step system. `Protocol.Step` gives the effect of one atomic action of one transaction
(a load, a compare-and-swap, one hop of a read, taking the counter lock, comparing one readset entry, the
store of the version word, one swap of an abort, ...). A history is any interleaving of such actions by
any number of transactions; `Reachable` says that some history ends in a state. Some components of the
state are history variables that no action tests: `home`, `owner`, `begunAt`, `seen`, `bufs`, `base`,
`init` and `hist`, the list of commits. The theorems hold in every reachable state.

- `Invariant`, `Preservation`, `Publication`: the invariant, and that every action keeps it.
- `Snapshots`, `Chains`, `Serializability`, `Outcomes`, `Traces`: what follows for readers, chains, committed
  transactions, aborts and validation; the last one says of whole histories which actions must have come before
  a commit or an abort.
- `WriteSkew`: a family of runs that shows where the documentation promises more than the code does.
- `Buffers`, `Closures`: the bytes a closure leaves in its buffers are what its commit publishes, so
  committed closures are programs that serializability speaks about.
- `Interference`, `Transactions`, `Librarius`: `Transaction` and `run_once` as classes and methods with
  the loops and the recursion of the code. Between any two atomic actions other threads do whatever an
  arbitrary script says, and the contracts hold for every script.
- `Bits`, `Rounding`, `Words`: machine words as numbers below 2^64, the masks, and how pointers and versions
  are packed.
- `Pages`, `Spaces`, `Backing`, `Roots`, `AddressSpaces`, `Allocation`, `StorageRuns`, `StorageLaws`: free lists,
  address translation, flush and fetch, the root, the bump allocators, and whole histories of storage operations.
  Methods of the classes are proved equal to functions on values; the properties are proved of those functions,
  in terms of the flags, the free pages and the bytes of the sources.

## What the code does and its documentation does not say

- `DESIGN.md:70` and `README.md:41` promise serializable isolation, and `DESIGN.md:91` says that
  `read_for_write` can be used to prevent write skew. A read is serial exactly if nobody
  commits its cell between the snapshot and the commit (`ReadIsSerialIff`), and for a running transaction
  that is so exactly if the newest committed object of the cell is within the snapshot
  (`CurrentIffWithinSnapshot`). Validation tests something else: it compares each readset head with the
  transaction's own version, which still reads zero, so an entry passes exactly if its head is uncommitted
  (`EntryPassesIffLatched`). `Serializable` holds whenever all reads are serial, so in particular for
  transactions that write every cell they look at; `ReadForWriteAllowsWriteSkew` gives, for every initial
  store with two cells, a run in which reading through `read_for_write` is not enough.
- A plain read never sees the transaction's own writes, and a second write to the same cell aborts.
- A failed validation uses up a version number, so version numbers increase but may skip
  (`CounterCountsLocks`).
- When a request does not fit, `GenericAllocator::alloc` drops the rest of its active page; after
  `AllocationTooLarge` the fresh page stays active (`FreshPageOnlyWhenFull`).
- Pages come from one source only: the first byte-addressable one for memory, the first persistent one for
  backing pages. When it is full the operation fails, whatever the other sources have (`AllocServes`,
  `BackingServes`).
- The source header takes 24 bytes. With pages of less than 32 bytes the meta page overlaps it
  (`MetaIsBehindHeaderIff`); free pages are behind both for every page size.
- The address of a root that is found in a formatted source (src/las.rs:274-275) lacks the offset of the
  meta page, which the address of a created root has (src/las.rs:331-332): it lies one page below
  (`RootAddresses`). A reopened root reads the root field exactly if the header page holds the same bytes at
  that place (`ReopenedRootReadsFieldIff`). Whatever the header and the meta data of a file are, there is a
  root for it, not all zero, that reopening does not find (`ReopenedRootIsLost`); the checksum of the meta
  data does not cover the root.
- The root lives on the first persistent source, also when that is a block source, whose meta page is then copied
  to the first byte-addressable source (`CreatedRootIsHome`). If that one is persistent as well, as a
  memory source over a file is, a flush of the root takes the copy for storage and writes nothing: the
  root never reaches its home (`FlushedRootIsHomeIff`).
- `flush`, `fetch` and `get_backing` accept a slice that runs into the next page. The slice they return
  then runs past its page too (`FlushedPartFitsIff`, `FetchedPartFitsIff`).
- `read_into` and `write_from` ignore their `offset` argument; every caller passes zero.

## Model

| member | source | states |
|---|---|---|
| Protocol.Step | src/tx.rs:60-170 | every action belongs to one transaction, changes no other one, never takes back a recorded write or a value handed out, and only the store of a version word adds to the history |
| Publication.KeepStep | src/tx.rs:20-170 | each of the nineteen actions keeps the invariant (links, heads, latches, log words, lock, writesets, history) |
| Publication.ReachableInv | src/tx.rs:60-170 | the invariant holds in every reachable state of every interleaving |
| Publication.KeepStoreVersion | src/vos.rs:569-584 | the one store that publishes all writes keeps the invariant: the new history entry matches the heap, other latches stay, other snapshots stay |
| Preservation.KeepInstallCopy | src/tx.rs:20-25 | a successful or failed compare-and-swap keeps the invariant; a latched cell is recorded in exactly its owner's writeset |
| Preservation.KeepRollbackOne | src/tx.rs:27-33 | a swap of an abort keeps the invariant, whatever the others did since the write |
| Invariant.AcceptedIsSnapshot | src/vos.rs:516-525 | an object accepted under a snapshot is the newest one that its cell had when the snapshot was taken |
| Invariant.RefusedMovesBack | src/vos.rs:518-523 | a refused version always has an older one, and following it stays on the cell's past |
| Snapshots.SnapshotRefinement | src/vos.rs:489-527 | in every reachable state the walk down any chain with any snapshot finds the value obtained by replaying, in version order, the commits within that snapshot |
| Snapshots.CursorReadsSnapshot | src/vos.rs:499-526 | wherever an unfinished read stands, also on a rolled-back object, the rest of its walk ends at its snapshot value |
| Snapshots.SeenIsSnapshot | src/tx.rs:83-94 | every value ever handed to a closure is the one of its snapshot, so reads repeat |
| Snapshots.HopsDecrease | src/vos.rs:518-523 | each hop strictly decreases a measure, so the recursive read ends |
| Snapshots.VisibilityIsFixed | src/vos.rs:557-584 | over any run, the objects a transaction accepts are exactly those it accepted when it began, although versions are being stored meanwhile |
| Snapshots.VisibleTogether | src/vos.rs:183-201 | all copies of one transaction are visible to a snapshot, or none is |
| Snapshots.LaterSnapshotSeesAll | src/vos.rs:557-584 | who begins after a version was stored sees every write of that transaction, whatever happens later |
| Snapshots.OnlyCommitsChangeValues | src/tx.rs:140-144 | no action but the store of a version changes the value of any cell under any snapshot; in particular no write and no abort does |
| Snapshots.CommitPublishes | src/vos.rs:569-584 | from its version on, the store shows the transaction's values in exactly the cells it wrote |
| Chains.ChainIsHistory | src/vos.rs:296-301 | the chain of a cell is the list of all objects committed on it, newest first, down to its base object, under at most one latching copy |
| Chains.ChainIsSound | src/tx.rs:100-119 | chains do not repeat an object, only a head is uncommitted, and versions strictly decrease |
| Chains.LatchIsUnique | src/tx.rs:100-119 | the head of a cell is the copy of at most one entry of at most one writeset |
| Chains.LatchOwner | src/tx.rs:111-118 | an uncommitted head is recorded by its owner, whose `current` is the head's `other` and the newest committed object |
| Chains.LatchHasOneOwner | src/tx.rs:100-119 | an uncommitted head is the copy of exactly one entry of exactly one transaction, which has not finished |
| Serializability.HistoryIsTheCommits | src/vos.rs:569-584 | the history names a writing transaction exactly if it stored its version, and then once |
| Serializability.FirstCommitterWins | src/tx.rs:100-119 | nobody commits, between the snapshot and the version of a transaction, a cell which that transaction wrote |
| Serializability.ReadIsSerialIff | src/tx.rs:83-94 | the object a commit's snapshot shows for a cell is the one all earlier commits left, if and only if none of them wrote the cell after the snapshot |
| Serializability.CurrentIffWithinSnapshot | src/tx.rs:150-157 | nobody committed a cell since a running transaction's snapshot, if and only if the newest committed version of the cell is within it: the test that validation lacks |
| Serializability.SerialWhateverItRanIff | src/tx.rs:146-170 | a commit is what running any program over these cells alone would give, whatever program it executed, if and only if its snapshot of them is what the earlier commits left |
| Serializability.CommitSawSerialStore | src/tx.rs:106-118 | what a committed transaction saw of a cell that nobody committed meanwhile is what all earlier commits together left there |
| Serializability.Serializable | src/tx.rs:100-170 | if nobody committed a cell a committed program looks at between its snapshot and its commit, the visible store is what running the programs alone in version order leaves |
| Serializability.WritersAreSerializable | src/tx.rs:100-170 | so it is if every committed program looks only at cells it writes |
| Serializability.SnapshotsAreConsistent | src/tx.rs:100-170 | what all programs with serial reads preserve when run alone holds in the snapshot of every running transaction |
| Serializability.CounterCountsCommits | src/librarius.rs:198-246 | a cell that every commit increments holds its initial value plus the number of commits |
| WriteSkew.ReadForWriteAllowsWriteSkew | src/tx.rs:150-157 | for every initial store and any two cells, two transactions that validated all they read can both commit with an outcome that neither serial order has |
| Buffers.BuffersArePrivate | src/tx.rs:107-118 | in every reachable state, the bytes of a buffer that `write` returned change only by the edit of the closure that got it |
| Buffers.CommitPublishesBuffers | src/vos.rs:569-584 | a commit holds, for exactly the cells written, what the closure left in the buffers |
| Closures.PublishedIsProgram | src/librarius.rs:142-155 | what a committed closure published is an execution of the program its operations describe |
| Closures.ClosuresAreSerializable | src/librarius.rs:142-155 | if nobody committed a cell that a committed closure used meanwhile, the visible store is what the closures leave when they run one after another, alone, in version order |
| Closures.PuttingClosuresAreSerializable | src/librarius.rs:142-155 | so it is if every closure puts to each cell that it uses |
| Outcomes.NeverPanics | src/tx.rs:27-33 | the assertion in rollback never fails and no read falls off its chain |
| Outcomes.RollbackRestores | src/tx.rs:140-144 | each swap of an abort finds its own copy and puts back the pointer it replaced, the newest committed object |
| Outcomes.FinishedHoldsNoLatch | src/librarius.rs:142-155 | no cell is headed by an uncommitted object of a finished transaction |
| Outcomes.InstallFailsOnConflict | src/tx.rs:113-114 | the swap of a write fails exactly when the cell was latched or committed by another transaction since |
| Outcomes.CheckFailsOnConflict | src/tx.rs:101-106 | whatever others do between the load of a write and its test, the test aborts if and only if the head was latched or newer than the snapshot when it was loaded |
| Outcomes.StrictReadFailsOnConflict | src/tx.rs:87-94 | likewise for `read_for_write` and its load |
| Outcomes.OperationsFailOnConflict | src/tx.rs:83-129 | an operation aborts only at a refused read of a strict read, a refused head of a write, or a swap that met a conflict; it runs out of memory only at an allocation it needs; no read falls off its chain |
| Outcomes.EntryPassesIffLatched | src/tx.rs:150-157 | whatever others do meanwhile, a readset entry passes validation if and only if its head was uncommitted when loaded |
| Traces.CommitsAreValidated | src/tx.rs:150-157 | in every history, before a version is stored its transaction took the lock and then loaded every entry of its readset, one after the other, each with an uncommitted head at that moment |
| Traces.FailuresAreJustified | src/tx.rs:150-157 | in every history, a failed validation took the lock, passed a part of its readset in order, and loaded a committed head at the next entry |
| Traces.AbortsAreJustified | src/tx.rs:140-170 | a transaction begins to roll back only when its closure has ended, or after a validation that failed for such a cause |
| Traces.CounterCountsLocks | src/vos.rs:578-583 | the counter is one plus the number of commits that took the lock, failed validations included |
| Outcomes.LockFreezesVersions | src/vos.rs:578-583 | while a commit holds the lock nobody else changes any version or takes the lock |
| Outcomes.WritersPassValidation | src/tx.rs:146-170 | a transaction that wrote its whole readset never fails validation |
| Interference.OneInterference | src/vos.rs:133-141 | what any action of another thread leaves alone: this transaction, committed versions, the past, and everything while this one holds the lock |
| Interference.SnapshotIsConstant | src/vos.rs:557-562 | the store that a transaction sees is the same in every later state |
| Interference.StoreNumbersCopies | src/vos.rs:183-201 | the store of a version gives every copy of the transaction, which read zero before, the new number |
| Transactions.Transaction.constructor | src/tx.rs:61-81 | the snapshot is the counter, and the transaction starts empty |
| Transactions.Transaction.ReadFrom | src/vos.rs:489-527 | the recursion ends under any interference with the snapshot value, or with an abort if it was asked to be strict; a strict one succeeds if and only if its snapshot accepts the head it was given |
| Transactions.Transaction.Read | src/tx.rs:83-94 | a plain read always succeeds; both kinds give the snapshot value; a strict one records the cell and, under any interference, aborts if and only if the head was in conflict in the state in which it was loaded |
| Transactions.Transaction.WriteVersion | src/tx.rs:122-129 | the first write allocates one fresh log word holding zero, or fails if and only if there is no memory; later ones change nothing; no visible version changes |
| Transactions.Transaction.Write | src/tx.rs:100-120 | success latches the cell with a copy holding the snapshot value and records it, and its head was not in conflict at the swap; failure records nothing; under any interference an abort means that the head was in conflict at the load or at the swap, and `NoAvailableMemory` that there was too little memory for the log word and the copy |
| Transactions.Transaction.SwapBack | src/tx.rs:27-33 | the compare-and-swap of a rollback succeeds and puts back the old pointer |
| Transactions.Transaction.Abort | src/tx.rs:140-144 | the loop meets its assertion every time, also under interference, and no copy of this transaction is left at any head |
| Transactions.Transaction.Validate | src/tx.rs:150-157 | the loop passes if and only if every head was uncommitted in the state of this run in which it was loaded; between the loads lie actions of other transactions and this one's own comparisons, and nothing else |
| Interference.ByOthersIsRun | src/tx.rs:150-157 | what the other threads did in between is a run of labels of other transactions |
| Transactions.Transaction.StoreWord | src/vos.rs:183-201 | one store commits everything the writeset holds: every copy goes from version zero to the counter |
| Transactions.Transaction.Commit | src/tx.rs:146-170 | ends committed or rolled back, or waiting for a lock that nobody will release; fails only if a readset cell was committed when it was loaded, so never for a transaction that wrote its readset; undisturbed it commits if and only if the readset is latched |
| Librarius.RunClosure | src/librarius.rs:146-147 | the outcome is the one of the first operation that fails, and all before it were handed the snapshot values; a conflict was met at that operation's cell; undisturbed, the operations all succeed if and only if none meets the transaction's own latch |
| Librarius.LatchedIffPut | src/tx.rs:150-157 | undisturbed, the readset is latched if and only if every cell got for writing was put to |
| Librarius.PutTo | src/tx.rs:100-120 | a write hands out the snapshot value and its edit, which may depend on all bytes handed out so far, fills the buffer, under any interference; undisturbed it fails exactly on the transaction's own latch |
| Librarius.RunOnce | src/librarius.rs:142-155 | on every way out no uncommitted copy heads a cell; success means, under any interference, that the closure was handed the values visible at its start, and that, if it put to any cell, one commit of this transaction holds exactly what it computes from them; an error is the one of the first operation that failed, or else the closure's own, or `TxAborted` for a readset cell that was found committed; with two allocations for each operation it is `TxAborted` or the closure's own; a closure that puts nothing, or puts to all it gets for writing, never fails to commit; undisturbed it succeeds if and only if each cell is written once, not read for writing after that, and every readset cell of a writer is written |
| Rounding.AlignDownIsGreatest | src/utils.rs:33-44 | the mask gives the greatest multiple not above the value |
| Rounding.AlignUpIsLeast | src/utils.rs:20-31 | the mask gives the least multiple not below the value, for sums that do not overflow |
| Words.PointerRoundTrip | src/vos.rs:26-122 | every address below 2^54 and every kind come back out of the packed pointer |
| Words.PointersAreInjective | src/vos.rs:26-122 | equal pointer words have equal addresses and kinds |
| Words.DirectRoundTrip | src/vos.rs:156-181 | numbers below 2^63 are direct versions that read as themselves |
| Words.IndirectRoundTrip | src/vos.rs:203-211 | an indirect version gives back exactly the pointer word it was made from |
| Words.ResolveIsNumber | src/vos.rs:219-233 | resolving a packed version takes at most one indirection and gives the number that the protocol uses |
| Words.PublishThenResolve | src/vos.rs:183-233 | committing through one version and reading through any gives the stored number for that log word and the old one for all others |
| Pages.Split | src/source/mod.rs:77-87 | the two parts lie end to end and make up the page; too long a front is refused |
| Pages.Initialize | src/source/mod.rs:141-156 | the free list is all whole pages behind header and meta page without valid data, once each, in order |
| Pages.SourceAllocator.constructor | src/source/mod.rs:161-174 | a source that holds its header and meta page starts with that free list, for its length rounded down to pages |
| Pages.LongEnoughIff | src/source/mod.rs:141-144 | the length rounded down reaches behind the meta page, so that the subtraction does not underflow, if and only if the length does |
| Pages.SourceAllocator.AllocatePage | src/source/mod.rs:180-193 | for free lists of any pages: what is handed out and all that stays on the list; whole pages leave it in order, none is lost, and an empty list is an error |
| Pages.PagesAreConserved | src/source/mod.rs:119-193 | allocated and free pages are the initial ones, disjoint and clear of header and meta page |
| Pages.MetaIsBehindHeaderIff | src/source/mod.rs:176-178 | the meta page is the second one, below every page that can be free; it is clear of the source header if and only if pages have at least 32 bytes |
| Spaces.Locate | src/las.rs:507-518 | the last source that starts at or below the address, or none |
| Spaces.AddressFindsItsSource | src/las.rs:507-518 | an address in a source's range resolves to that source |
| Spaces.TranslationDoesNotAlias | src/las.rs:507-534 | exactly one address stands for each byte of each source |
| Spaces.PageArithmetic | src/las.rs:54-70 | for a slice not longer than a page, the masks find the page it starts in, and page and offset rebuild its address |
| Spaces.LoadElsewhere | src/las.rs:559-573 | a store through one range of addresses changes no disjoint range |
| Spaces.PlaceFresh | src/las.rs:297-311 | fresh sources follow the mapped ones without gap or overlap, each with its bytes, flags and free pages, and mapped ones stay |
| Backing.First | src/las.rs:374-390 | the first source in address order that qualifies |
| Backing.AllocIsTaken | src/las.rs:480-501 | an allocated page is whole, mapped, was free, and is the only one that stops being free |
| Backing.BackingKeeps | src/las.rs:418-434 | a new backing page is persistent and nobody else's, no byte changes, and no existing backing changes |
| Backing.FlushWrites | src/las.rs:436-478 | after a flush the returned persistent slice holds the bytes of the flushed one, tagged as its source is addressed |
| Backing.FlushGivesBacking | src/vos.rs:474-478 | after a successful flush a backing exists, so unwrapping it cannot fail, and it is the slice that the flush returned |
| Backing.FetchReads | src/las.rs:536-557 | reading what was fetched gives the bytes that were stored |
| Backing.AllocServes | src/las.rs:374-390 | a page is allocated if and only if the first byte-addressable source has a free one, and it is its lowest one, whatever later sources have |
| Backing.BackingServes | src/las.rs:418-434 | a key without a backing gets one if and only if the first persistent source has a free page: its lowest one, tagged as that source is addressed, and no other source changes |
| Backing.FlushSucceedsIff | src/las.rs:436-478 | a flush succeeds if and only if the address resolves and its page is on a persistent source, is backed, or can be backed; on a persistent source it returns the slice itself and changes nothing; else the slice lies in the old backing page or in the lowest free page of the first persistent source |
| Backing.FetchSucceedsIff | src/las.rs:536-557 | a fetch succeeds if and only if the address resolves and the first byte-addressable source has a free page, whose lowest one it fills |
| Backing.FlushFetchRoundTrip | src/las.rs:436-557 | flush, fetch, read gives the bytes present at the flush |
| Backing.FlushedPartFitsIff | src/las.rs:436-478 | the slice a flush returns starts in the backing page and stays inside it if and only if the flushed slice stayed inside its page |
| Backing.FetchedPartFitsIff | src/las.rs:536-557 | the slice a fetch returns can be read if and only if the fetched slice stayed inside its page |
| Roots.MapKeeps | src/las.rs:340-361 | mapping the page of a root as a backing page keeps the map one to one |
| Roots.CreateKeeps | src/las.rs:321-361 | so does creating a root |
| Roots.CreatedRootIsHome | src/las.rs:321-361 | from the flags alone: the created root is on the first persistent source, or on the first in memory if none persists, in place or in a fetched copy that its meta page backs; it reads as the root field of that meta page; it fails if and only if such a copy finds no memory |
| Roots.NoHomeNoRoot | src/las.rs:325-328 | without a persistent and a byte-addressable source it fails |
| Roots.FlushedRootIsHomeIff | src/las.rs:325-478 | flushing the root, after any bytes were stored over it, puts them into the root field of its home's meta page if and only if the home is byte addressable or the first byte-addressable source is volatile; else nothing is written |
| Roots.RootAddresses | src/las.rs:274-332 | the address of a created root lies in the meta page, that of a found one a page below in the header page, at the same place |
| Roots.ReopenedRootReadsHeader | src/las.rs:274-361 | a reopened root reads what the header page holds there, on byte and on block sources |
| Roots.ReopenedRootReadsFieldIff | src/las.rs:274-361 | so it reads the root field if and only if both pages hold the same bytes there |
| Roots.ReopenedFileKeepsRootIff | src/las.rs:270-361 | for a file with any header and any meta page, reopened beside memory, the root is found if and only if the root field holds what follows the header at that place |
| Roots.ReopenedRootIsLost | src/las.rs:270-361 | every such file has a root, not all zero, that reopening does not find |
| AddressSpaces.LogicalAddressSpace.Read | src/las.rs:520-534 | the bytes behind the slice's addresses, or the error for an address that resolves to no source or lies behind the end of its source |
| AddressSpaces.LogicalAddressSpace.Write | src/las.rs:559-573 | exactly the bytes behind the slice's addresses change, or nothing does and the error is the one of a read |
| AddressSpaces.LogicalAddressSpace.Alloc | src/las.rs:480-501 | the first free page of the first byte-addressable source, or an error that changes nothing |
| AddressSpaces.LogicalAddressSpace.GetBackingOf | src/las.rs:396-416 | the slice itself on a persistent source, else the same part of the backing page, if there is one; also behind the end of the source |
| AddressSpaces.LogicalAddressSpace.GiveBacking | src/las.rs:418-434 | the key has its old backing or a fresh page of the first persistent source, or an error that changes nothing |
| AddressSpaces.LogicalAddressSpace.FlushSlice | src/las.rs:436-478 | equals the non-recursive `Backing.Flush`; it calls itself at most once; an error, also for an address behind the end of its source, changes nothing |
| AddressSpaces.LogicalAddressSpace.FetchSlice | src/las.rs:536-557 | equals `Backing.Fetch`, of which the round trip is proved; an error, also for an address behind the end of its source, changes nothing |
| Allocation.Consume | src/las.rs:150-169 | between `min` and `size` bytes off the front; what is given and what is left lie end to end |
| Allocation.TooLargeIffBeyondPage | src/vos.rs:249-269 | a request is too large if and only if it exceeds a fresh page and there is one; memory has run out if and only if neither the active page nor the sources can serve; a slice given has the size asked for, and the rest of its page stays active |
| Allocation.FreshPageOnlyWhenFull | src/vos.rs:249-269 | while the active page has room it serves and no page is taken; else its rest is dropped and one fresh page serves, or stays active when it is too small; without memory nothing is active |
| Allocation.GenericAllocator.Alloc | src/vos.rs:249-269 | the same of the object: its loop makes at most two passes, and the old active page and the old sources determine the answer, the new active page and the page taken |
| StorageRuns.StepKeeps | src/las.rs:418-573 | each allocation, fetch, flush and write keeps all slices disjoint and all pages accounted for |
| StorageRuns.AllocationsAreDisjoint | src/vos.rs:249-269 | over any history of any number of allocators and fetches, no two slices or fetched pages handed out overlap, and no address is handed out twice |
| StorageRuns.AllocationsLieInPages | src/source/mod.rs:141-193 | everything handed out lies inside one page that was free at the start, so behind header and meta page |
| StorageRuns.PagesAreAccountedFor | src/source/mod.rs:180-193 | at any time the free, taken and backing pages are exactly the initial ones, each in one role |
| StorageRuns.BackingIsInjective | src/las.rs:340-434 | at any time two pages are backed by disjoint pages, including the root's meta page |
| StorageRuns.BackingSurvives | src/las.rs:436-478 | the bytes of a backing page change only when the page it backs is flushed again |
| StorageRuns.FlushedIsDurable | src/las.rs:436-557 | what was flushed from a volatile page is fetched and read back unchanged at any time until that page is flushed again |
| StorageLaws.AllocHands | src/vos.rs:249-269 | an allocation hands out the front of its active page, or of one fresh page if it does not fit, and touches no other allocator |
| StorageLaws.AllocContinues | src/vos.rs:249-269 | over any history, the next slice of an allocator starts where its previous one ended, exactly while it fits into that slice's page; only otherwise a page is taken |
| StorageLaws.HandedIsWritable | src/las.rs:559-573 | whatever was handed out in any history lies in one page of a byte-addressable source and backs nothing, so that `write` meets no assertion |
| StorageLaws.WrittenStays | src/las.rs:520-573 | what an owner writes into its slice is read back at any later time until somebody writes over it |
| StorageLaws.FetchHands | src/las.rs:536-557 | a fetch hands out a whole page that was free, in which the slice's place reads as the slice; without memory it changes nothing |
| StorageLaws.BackedIffFlushed | src/las.rs:418-478 | at any time in any history, a page has a backing if and only if it had one at the start or was flushed since, while a backing was there or to be had |
| StorageLaws.NoBackingIffUnflushed | src/las.rs:396-416 | `get_backing` finds none if and only if the page is volatile, had no backing at the start and was not flushed since; it fails if and only if the address resolves to no source |
| StorageRuns.SliceIsPrivate | src/las.rs:480-573 | a slice or a fetched page keeps its bytes through every history in which nobody writes over it |

## Left out

- Cells are a fixed set, each headed by one committed object at the start. `Transaction::alloc`, null cells, and cells inside objects that `write` copies (src/tx.rs:109 duplicates the child pointers) are not modelled.
- Block-tagged cells in the protocol: `write` swizzles only a clone and `read_version` on blocks is unfinished in the code. Blocks appear in pointer packing and in flush and fetch.
- Librarius.RunOnce: a closure is a list of reads, reads for writing, and writes whose edits depend on all bytes handed out so far; which cells come next does not depend on them. Control flow that does is covered by the step system and by `Serializable`.
- Librarius.RunOnce: a closure ends with the error of its first failing operation; one that goes on after an error is covered by the step system.
- Librarius.RunOnce: a transaction begins while no commit holds the lock, and may end as `Blocked` when the script of other threads runs out while one still does; waiting for a lock is not a terminating action.
- Librarius.RunOnce: the retry loop `run` is not modelled; the code promises no fairness that would end it.
- Memory ordering: every atomic access of the code is sequentially consistent, so an action is one step on one shared state.
- Machine width in the protocol: addresses, counter and version numbers are unbounded there; `Words` states which widths the packing needs.
- `VersionedReader::flush` as a whole (the loop over child pointers); only that its `unwrap` cannot fail.
- I/O, files, `mmap`, CRC, header validity, page size mismatch, and the layout of headers: a source is a sequence of bytes with two flags, `valid` is a parameter, and the offset of the root field is a parameter.
- Opening sources that were formatted before: their ranges are taken to be disjoint and aligned, since the check in src/las.rs:283-285 is incomplete, and there is one root at most; where it is looked for is modelled in `Roots`.
- The `Space` of the storage model holds the free list of a source as a value; `Pages.SourceAllocator` is the object that updates it in place.
- Concurrent use of the storage layer: each storage operation is one step.
- Durability after a crash, replacement, compaction, `set`, lattices and replication: not in the code or unfinished there.
