# FileSystemManager storage engine, in Dafny

This project models the storage engine of a small networked file server.
The engine is the `FileSystemManager` class and its `FNode` record. It keeps
a simulated flat block device: a backing file of `MAXBLOCKS` blocks of
`BLOCK_SIZE = 128` bytes. Alongside the device it keeps three in-memory
tables:

- a file-entry table of `MAXFILES = 5` slots, each empty or holding a name,
  a byte size and the index of the file's first node;
- a node table with one `FNode` (`blockIndex`, `next`) per block, through
  which each file's blocks form a singly linked chain ending at `-1`;
- a free-block bitmap.

The engine offers `createFile`, `listFiles`, `readFile`, `writeFile` and
`deleteFile`, plus the private helper `freeFileBlocks`. That helper walks a
chain, zero-fills each block, marks it free and resets its node.

The state is an immutable `FileSystem` record (`FsState`). The constructor
and each operation is a pure function from the state before the call to the
state after it and the call's outcome (`FileSystemManager`). The Java loops
become recursive functions with pointwise contracts. Each chain walk
terminates because `writeFile` links the blocks it allocates in strictly
ascending order (`Chains.WellFormed`, measured by `Chains.Rank`).

`FsState.Valid` is the invariant. It says:

- the tables have their sizes;
- names are unique and at most 11 UTF-16 code units long;
- a file's chain has `ceil(size / 128)` nodes, and an empty file has first
  node `-1`;
- node `k` of a chain refers to block `k`;
- no block lies on two chains;
- the bitmap marks a block free exactly when no chain holds it;
- a node that no chain holds is `(-1, -1)`.

`Properties` proves that the constructor establishes the invariant and that
`createFile`, `deleteFile` and `freeFileBlocks` keep it. `Theorems` proves
that `writeFile` keeps it (`Theorems.WriteFileValid`), and the main results:

- **Write-then-read.** After a successful `writeFile(name, c)`,
  `readFile(name)` returns exactly `c`.
- **Allocation.** The blocks a write takes are the `ceil(n / 128)`
  lowest-indexed blocks that are available. They are linked in ascending
  order, node index equals block index, and they are marked used.
- **Failed write.** The code releases the old chain *before* it checks for
  space. So a write that fails for lack of space leaves the file empty
  (size 0, first node `-1`), with its old blocks zeroed and free. The space
  check counts the file's own former blocks as free.
- **Isolation.** A write to one file leaves every other file's content
  unchanged.

`Lifecycle` relates `listFiles`, `createFile` and `deleteFile` to reads.
`AtomicWrite` states the loss of content on a failed write and defines the
write that checks for space first (see Findings).

Three points of the code shape the model:

- **Order of checks in `createFile`.** An over-long name is rejected
  before the table is searched for a duplicate
  (`FileSystemManager.java:56-65`). The name length is Java's
  `String.length()`, which counts UTF-16 code units (`FsState.Utf16Length`).
- **`writeFile` is not atomic.** The old chain is freed at `:166`, before
  the space check at `:186`. The rollback at `:220-224` only re-marks the
  newly collected blocks free, so a write that fails for lack of space
  leaves the file empty.
- **Free blocks are not zeroed at start-up.** `setLength` at `:31` does not
  clear the backing file, so `Init` takes the file's prior block image as a
  parameter, and the invariant says nothing about the content of free
  blocks. Only `freeFileBlocks` zero-fills a block.

## Model

| member | source | states |
|---|---|---|
| FNodes.NewNode | FileServer/src/main/java/ca/concordia/filesystem/datastructures/FNode.java:11-14 | a fresh node refers to the given block and has no successor (`next = -1`) |
| FNodes.SetBlockIndex | FileServer/src/main/java/ca/concordia/filesystem/datastructures/FNode.java:16-22 | after `setBlockIndex(b)` the block read back is `b` and `next` is unchanged |
| FNodes.SetNext | FileServer/src/main/java/ca/concordia/filesystem/datastructures/FNode.java:24-30 | after `setNext(x)` the successor read back is `x` and `blockIndex` is unchanged |
| FNodes.SettersCommute | FileServer/src/main/java/ca/concordia/filesystem/datastructures/FNode.java:20-30 | the two setters commute, their combination is determined by the two values alone, and the reset `setNext(-1); setBlockIndex(-1)` gives the node the constructor makes for an unused block |
| FEntries.SetFilesize | FileServer/src/main/java/ca/concordia/filesystem/FileSystemManager.java:287-288 | `setFilesize` replaces the size and keeps the name and the first node |
| FEntries.SetFirstBlock | FileServer/src/main/java/ca/concordia/filesystem/FileSystemManager.java:172-173 | `setFirstBlock` replaces the first node and keeps the name and the size |
| Disk.CeilDiv | FileServer/src/main/java/ca/concordia/filesystem/FileSystemManager.java:168-169 | the block count is the least `k` with `k * 128 >= n`: it covers every byte and has no block to spare |
| Disk.PrependBlock | FileServer/src/main/java/ca/concordia/filesystem/FileSystemManager.java:128-137 | one step of the read loop: `min(128, remaining)` bytes of the first block followed by the rest of the chain put byte `x` at offset `x % 128` of the `x / 128`-th block |
| Disk.ZeroBlock | FileServer/src/main/java/ca/concordia/filesystem/FileSystemManager.java:265-272 | the buffer written over a freed block is 128 zero bytes |
| Disk.WriteAt | FileServer/src/main/java/ca/concordia/filesystem/FileSystemManager.java:209-213 | writing `len` bytes at the start of a block sets those bytes and leaves the rest of the block as it was |
| Bitmap.CollectFree | FileServer/src/main/java/ca/concordia/filesystem/FileSystemManager.java:178-184 | the scan returns `min(needed, free count)` indices, all free, strictly ascending, and lower than every free index it skips |
| Bitmap.MarkAll | FileServer/src/main/java/ca/concordia/filesystem/FileSystemManager.java:190-193 | marking a list of blocks sets exactly those entries of the bitmap and keeps all others |
| Bitmap.MarkFreeUnchanged | FileServer/src/main/java/ca/concordia/filesystem/FileSystemManager.java:220-224 | the rollback of a failed allocation re-marks blocks that are already free, so it leaves the bitmap unchanged |
| Bitmap.CountRelease | FileServer/src/main/java/ca/concordia/filesystem/FileSystemManager.java:267-284 | freeing the distinct used blocks of a chain raises the free count by exactly the chain's length |
| Chains.Chain | FileServer/src/main/java/ca/concordia/filesystem/FileSystemManager.java:264-284 | the nodes a chain walk visits: non-empty exactly when it starts inside the table, starting at the first node, in range and strictly ascending |
| Chains.ChainStep | FileServer/src/main/java/ca/concordia/filesystem/FileSystemManager.java:267-283 | one step of the walk: a well-formed chain is its node followed by its successor's well-formed chain, and the rank drops, so the walk ends |
| Chains.ChainFrame | FileServer/src/main/java/ca/concordia/filesystem/FileSystemManager.java:267-284 | a chain and its well-formedness depend only on the nodes it visits |
| Chains.LinkedChain | FileServer/src/main/java/ca/concordia/filesystem/FileSystemManager.java:195-202 | linking an ascending list of nodes each to the next, and the last to `-1`, gives a well-formed chain that visits exactly that list |
| Chains.FreshNodeIsTerminal | FileServer/src/main/java/ca/concordia/filesystem/datastructures/FNode.java:11-14 | a node fresh from the constructor ends its chain at once |
| FileSystemManager.JavaDiv | FileServer/src/main/java/ca/concordia/filesystem/FileSystemManager.java:30 | Java integer division truncates toward zero: the quotient has the sign of the dividend and `q * d` lies between 0 and the dividend, within one divisor; so a size of -128 or less gives a negative block count and -127 to -1 give 0 |
| FileSystemManager.Init | FileServer/src/main/java/ca/concordia/filesystem/FileSystemManager.java:27-41 | `MAXBLOCKS = totalSize / 128`; the constructor fails exactly when that is negative; otherwise every slot is empty, every block free and every node `(-1, -1)`, and the backing file's prior blocks are kept |
| FileSystemManager.FindFrom | FileServer/src/main/java/ca/concordia/filesystem/FileSystemManager.java:153-159 | the lookup loop finds the lowest slot from `i` on holding the name, or reports that none does |
| FileSystemManager.FindEntry | FileServer/src/main/java/ca/concordia/filesystem/FileSystemManager.java:107-117 | the lookup fails exactly when no live entry has the name; under unique names the slot found is the only one holding it |
| FileSystemManager.FirstEmptyFrom | FileServer/src/main/java/ca/concordia/filesystem/FileSystemManager.java:67-74 | the slot found is the lowest empty one; none is found only when every slot is taken |
| FsState.Utf16Length | FileServer/src/main/java/ca/concordia/filesystem/FileSystemManager.java:56 | a name's length as `String.length()` counts it: between its character count and twice that, equal to the character count exactly when no character lies outside the Basic Multilingual Plane, and twice it exactly when every character does |
| FileSystemManager.CreateFile | FileServer/src/main/java/ca/concordia/filesystem/FileSystemManager.java:52-85 | a name over 11 UTF-16 code units fails first, then a duplicate, then a full table, each with the state unchanged; it succeeds exactly when none applies, and then only the lowest empty slot changes, to an entry of size 0 and first node `-1` |
| FileSystemManager.LiveSlots | FileServer/src/main/java/ca/concordia/filesystem/FileSystemManager.java:92-96 | the live slots from `i` on: each one live, every live slot included, in ascending order |
| FileSystemManager.ListFrom | FileServer/src/main/java/ca/concordia/filesystem/FileSystemManager.java:91-97 | the listing loop yields one name per live slot, the `m`-th name being that of the `m`-th live slot |
| FileSystemManager.ListFiles | FileServer/src/main/java/ca/concordia/filesystem/FileSystemManager.java:88-101 | `listFiles` returns the names of the live entries in slot order |
| FileSystemManager.ReadChain | FileServer/src/main/java/ca/concordia/filesystem/FileSystemManager.java:124-137 | the read loop returns exactly `remaining` bytes, byte `x` being offset `x % 128` of the `x / 128`-th block of the chain |
| FileSystemManager.ReadFile | FileServer/src/main/java/ca/concordia/filesystem/FileSystemManager.java:104-143 | `readFile` fails with FileNotFound exactly when the name is absent; otherwise it returns the content the file's slot holds |
| FileSystemManager.FreeChain | FileServer/src/main/java/ca/concordia/filesystem/FileSystemManager.java:264-284 | the release walk frees, zero-fills and resets to `(-1, -1)` exactly the blocks on the chain, and changes nothing off it |
| FileSystemManager.FreeFileBlocks | FileServer/src/main/java/ca/concordia/filesystem/FileSystemManager.java:258-289 | `freeFileBlocks` releases exactly slot `i`'s chain, sets its entry to size 0 and first node `-1`, and leaves every other entry as it was |
| FileSystemManager.DeleteFile | FileServer/src/main/java/ca/concordia/filesystem/FileSystemManager.java:232-256 | `deleteFile` fails with FileNotFound and no change on an absent name, and succeeds otherwise |
| FileSystemManager.LinkNodes | FileServer/src/main/java/ca/concordia/filesystem/FileSystemManager.java:196-200 | the linking loop points each allocated node but the last at the following one and touches no other node |
| FileSystemManager.SetBlockIndices | FileServer/src/main/java/ca/concordia/filesystem/FileSystemManager.java:206-208 | the data loop makes each allocated node refer to its own block and touches no other node |
| FileSystemManager.WriteBlocks | FileServer/src/main/java/ca/concordia/filesystem/FileSystemManager.java:205-214 | the data loop stores content byte `x` at offset `x % 128` of the `x / 128`-th allocated block, keeping block sizes, and touches no other block |
| FileSystemManager.WriteStepContent | FileServer/src/main/java/ca/concordia/filesystem/FileSystemManager.java:210-213 | one block written at offset `i * 128` together with the blocks after it holds every byte from `i * 128` on |
| FileSystemManager.Relink | FileServer/src/main/java/ca/concordia/filesystem/FileSystemManager.java:195-208 | after `writeFile`'s node updates, allocated node `a[m]` is `(a[m], a[m+1])`, the last one `(a[m], -1)`, and every other node is unchanged |
| FileSystemManager.RelinkLinks | FileServer/src/main/java/ca/concordia/filesystem/FileSystemManager.java:195-208 | the linking, the terminating `setNext(-1)` and the `setBlockIndex` calls together give each allocated node its own block and its successor in the allocation |
| FileSystemManager.RelinkFrame | FileServer/src/main/java/ca/concordia/filesystem/FileSystemManager.java:195-208 | those node updates touch no node outside the allocation |
| FileSystemManager.Commit | FileServer/src/main/java/ca/concordia/filesystem/FileSystemManager.java:190-218 | the successful tail of a write: the allocated blocks are marked used and linked in order, the content is stored across them, the entry gets the size and first block, and nothing else changes |
| FileSystemManager.WriteFile | FileServer/src/main/java/ca/concordia/filesystem/FileSystemManager.java:146-229 | `writeFile` fails with FileNotFound and no change on an absent name; on a present one it ends in success or InsufficientSpace and keeps the table sizes |
| Properties.InitValid | FileServer/src/main/java/ca/concordia/filesystem/FileSystemManager.java:30-40 | a freshly constructed manager satisfies the invariant |
| Properties.ReleaseChains | FileServer/src/main/java/ca/concordia/filesystem/FileSystemManager.java:258-289 | after `freeFileBlocks(i)` slot `i` has no chain and every other slot keeps its chain and validity |
| Properties.ReleaseInUse | FileServer/src/main/java/ca/concordia/filesystem/FileSystemManager.java:264-284 | after the release the blocks in use are exactly those in use before, minus the released chain |
| Properties.FreeFileBlocksValid | FileServer/src/main/java/ca/concordia/filesystem/FileSystemManager.java:258-289 | `freeFileBlocks` keeps the invariant |
| Properties.EmptySlotChange | FileServer/src/main/java/ca/concordia/filesystem/FileSystemManager.java:81 | putting an empty entry with a new name, or no entry, into a slot that holds no chain keeps the invariant |
| Properties.DeleteFileValid | FileServer/src/main/java/ca/concordia/filesystem/FileSystemManager.java:232-256 | `deleteFile` keeps the invariant |
| Properties.CreateFileValid | FileServer/src/main/java/ca/concordia/filesystem/FileSystemManager.java:52-85 | `createFile` keeps the invariant |
| Properties.CommitOwnChain | FileServer/src/main/java/ca/concordia/filesystem/FileSystemManager.java:195-218 | after a commit the written slot's chain is exactly the allocated list, and the slot is valid |
| Properties.ChainUsed | FileServer/src/main/java/ca/concordia/filesystem/FileSystemManager.java:190-193 | in a valid state every block on a live chain is in range and marked used |
| Properties.CommitOtherChain | FileServer/src/main/java/ca/concordia/filesystem/FileSystemManager.java:190-218 | a commit of free blocks leaves every other slot's chain and its validity unchanged |
| Properties.CommitChains | FileServer/src/main/java/ca/concordia/filesystem/FileSystemManager.java:190-218 | after a commit of free blocks to an empty slot, that slot's chain is the allocation, every other chain is unchanged, and every slot is valid |
| Properties.ExtendInUse | FileServer/src/main/java/ca/concordia/filesystem/FileSystemManager.java:190-218 | giving an empty slot the chain `a` and keeping the other chains adds exactly `a` to the blocks in use |
| Properties.ExtendDisjoint | FileServer/src/main/java/ca/concordia/filesystem/FileSystemManager.java:178-193 | a chain made of blocks that were on no chain keeps all chains disjoint |
| Properties.ExtendBitmap | FileServer/src/main/java/ca/concordia/filesystem/FileSystemManager.java:190-202 | marking exactly the newly chained blocks used, with no other node changed, keeps the bitmap exact |
| Properties.ExtendValid | FileServer/src/main/java/ca/concordia/filesystem/FileSystemManager.java:190-218 | extending an empty slot's chain with free blocks, marked used and with other chains kept, keeps the invariant |
| Properties.CommitValid | FileServer/src/main/java/ca/concordia/filesystem/FileSystemManager.java:190-218 | committing free blocks to an empty slot keeps the invariant |
| Properties.SameNameUnique | FileServer/src/main/java/ca/concordia/filesystem/FileSystemManager.java:216-218 | updating an entry in place under the same name keeps names unique |
| Theorems.ContentUnique | FileServer/src/main/java/ca/concordia/filesystem/FileSystemManager.java:124-137 | a slot's content is determined by the state |
| Theorems.ContentTransfer | FileServer/src/main/java/ca/concordia/filesystem/FileSystemManager.java:124-137 | two states that agree on a slot's entry, its chain and the chain's blocks give the slot the same content |
| Theorems.ReadAgrees | FileServer/src/main/java/ca/concordia/filesystem/FileSystemManager.java:104-143 | two states in which the same slots hold a name, with the same entries, chains and blocks, read that name the same |
| Theorems.ReadContent | FileServer/src/main/java/ca/concordia/filesystem/FileSystemManager.java:115-137 | `readFile` returns exactly the content its slot holds |
| Theorems.WriteFileValid | FileServer/src/main/java/ca/concordia/filesystem/FileSystemManager.java:146-229 | `writeFile` keeps the invariant, whatever its outcome |
| Theorems.ReleaseCommitValid | FileServer/src/main/java/ca/concordia/filesystem/FileSystemManager.java:166-218 | releasing the old chain, then committing the lowest free blocks, keeps the invariant |
| Theorems.ReleaseAddsFreeBlocks | FileServer/src/main/java/ca/concordia/filesystem/FileSystemManager.java:166-186 | the release before the space check adds the file's own chain length to the free count |
| Theorems.ReleaseAvailable | FileServer/src/main/java/ca/concordia/filesystem/FileSystemManager.java:258-289 | after the release a block is free exactly when it was free before or was on the released chain |
| Theorems.WriteFileCases | FileServer/src/main/java/ca/concordia/filesystem/FileSystemManager.java:161-218 | a write to an existing file is the release followed by one of three ends: success for empty content, InsufficientSpace with the released state when the scan falls short, or a commit of the collected blocks |
| Theorems.WriteFileOutOfSpace | FileServer/src/main/java/ca/concordia/filesystem/FileSystemManager.java:165-188 | a write fails for space exactly when `ceil(n / 128)` exceeds the free blocks plus the file's own; a failed write leaves the file empty, its old blocks zeroed and free, no new block marked used, and a read returns nothing |
| Theorems.WriteFileEmpty | FileServer/src/main/java/ca/concordia/filesystem/FileSystemManager.java:168-175 | writing empty content succeeds, leaves the entry at size 0 and first node `-1`, and frees the old chain |
| Theorems.CommitNodes | FileServer/src/main/java/ca/concordia/filesystem/FileSystemManager.java:190-202 | a commit marks every allocated block used and links its nodes in order, node index equal to block index |
| Theorems.ReleaseCommitAllocated | FileServer/src/main/java/ca/concordia/filesystem/FileSystemManager.java:166-218 | release then commit of the collected blocks allocates as `Allocated` describes |
| Theorems.ReleaseCommitChain | FileServer/src/main/java/ca/concordia/filesystem/FileSystemManager.java:190-202 | after release then commit, the slot's chain is the collected list |
| Theorems.ReleaseCommitEntries | FileServer/src/main/java/ca/concordia/filesystem/FileSystemManager.java:216-218 | after release then commit, only the slot's entry changes: same name, the new size, and the first collected block |
| Theorems.ReleaseCommitNodes | FileServer/src/main/java/ca/concordia/filesystem/FileSystemManager.java:190-208 | after release then commit, the collected blocks are marked used, each node refers to its own block and points at the next |
| Theorems.LowestAvailable | FileServer/src/main/java/ca/concordia/filesystem/FileSystemManager.java:178-184 | the blocks collected after the release are available to the file and lower than every available block left out |
| Theorems.WriteFileAllocation | FileServer/src/main/java/ca/concordia/filesystem/FileSystemManager.java:168-218 | a successful non-empty write claims the `ceil(n / 128)` lowest-indexed available blocks, linked ascending with node index equal to block index and the last ending at `-1`, marked used, with size `n` and first block recorded, and no other entry changed |
| Theorems.WriteFileCommits | FileServer/src/main/java/ca/concordia/filesystem/FileSystemManager.java:161-218 | a successful non-empty write is a commit of the lowest free blocks to the released slot |
| Theorems.CommitContent | FileServer/src/main/java/ca/concordia/filesystem/FileSystemManager.java:205-214 | a commit of free blocks to an empty slot keeps the invariant and stores exactly the content there |
| Theorems.WriteThenRead | FileServer/src/main/java/ca/concordia/filesystem/FileSystemManager.java:146-229 | after a successful `writeFile(name, c)` the state is valid and `readFile(name)` returns exactly `c` |
| Theorems.ReleaseKeepsSlot | FileServer/src/main/java/ca/concordia/filesystem/FileSystemManager.java:258-289 | releasing one slot's chain leaves another slot's entry, chain and chain blocks unchanged |
| Theorems.CommitKeepsSlot | FileServer/src/main/java/ca/concordia/filesystem/FileSystemManager.java:190-218 | a commit leaves another slot's entry, chain and chain blocks unchanged |
| Theorems.ReleaseReadsOthers | FileServer/src/main/java/ca/concordia/filesystem/FileSystemManager.java:258-289 | releasing one slot's chain keeps the invariant and changes no read of another name |
| Theorems.CommitReadsOthers | FileServer/src/main/java/ca/concordia/filesystem/FileSystemManager.java:190-218 | a commit to a slot holding another name changes no read of that name |
| Theorems.CommitKeepsNamed | FileServer/src/main/java/ca/concordia/filesystem/FileSystemManager.java:190-218 | a commit keeps which slots hold another name, and their entries, chains and blocks |
| Theorems.WriteFileKeepsOthers | FileServer/src/main/java/ca/concordia/filesystem/FileSystemManager.java:146-229 | a write to one name, successful or not, changes no read of any other name |
| Lifecycle.ListFilesNames | FileServer/src/main/java/ca/concordia/filesystem/FileSystemManager.java:88-101 | a name is listed exactly when a live entry has it |
| Lifecycle.ListFilesDistinct | FileServer/src/main/java/ca/concordia/filesystem/FileSystemManager.java:91-97 | under unique names no name is listed twice |
| Lifecycle.CreateFileCountsCodeUnits | FileServer/src/main/java/ca/concordia/filesystem/FileSystemManager.java:56-57 | a name of six U+1F600 characters is twelve code units long, so `createFile` rejects it as too long and changes nothing |
| Lifecycle.SlotChangeReadsOthers | FileServer/src/main/java/ca/concordia/filesystem/FileSystemManager.java:81 | changing a slot with no chain keeps the invariant and changes no read of a name it did not and does not hold |
| Lifecycle.CreateThenRead | FileServer/src/main/java/ca/concordia/filesystem/FileSystemManager.java:52-85 | `createFile` keeps the invariant; after success the new file reads back empty and is listed; no other name's read changes |
| Lifecycle.DeleteFileEffect | FileServer/src/main/java/ca/concordia/filesystem/FileSystemManager.java:232-256 | deleting an existing file empties its slot, zero-fills and frees exactly its chain's blocks, resets their nodes to `(-1, -1)`, and changes nothing else |
| Lifecycle.DeleteThenRead | FileServer/src/main/java/ca/concordia/filesystem/FileSystemManager.java:232-256 | after `deleteFile` the state is valid, the name reads as FileNotFound and is not listed, a file of that name can be created again, and every other name reads as before |
| AtomicWrite.WriteFileLosesContent | FileServer/src/main/java/ca/concordia/filesystem/FileSystemManager.java:165-188 | as written, a failed write to a non-empty file makes it read back empty |
| AtomicWrite.AtomicWriteFile | FileServer/src/main/java/ca/concordia/filesystem/FileSystemManager.java:220-225 | a write that checks for space before releasing: when it fails the state is unchanged; it fails with FileNotFound on an absent name and otherwise succeeds or fails for space |
| AtomicWrite.AtomicWriteAgrees | FileServer/src/main/java/ca/concordia/filesystem/FileSystemManager.java:165-188 | the write that checks first has the same outcome as `writeFile` on every input, and the same state when it succeeds |
| AtomicWrite.AtomicWriteThenRead | FileServer/src/main/java/ca/concordia/filesystem/FileSystemManager.java:146-229 | the write that checks first keeps the invariant, reads back what it wrote, and changes no file's content when it fails |

## Left out

- Concurrency: the global `ReentrantReadWriteLock` is not modelled. Each operation is one atomic step on one state.
- The singleton `getInstance` is not modelled. The state is passed explicitly.
- `FileServer.java` (socket loop, command parsing, response text) is not part of this model. Its own name-length check belongs to that adapter.
- `FEntry.java` is not part of this model. `FEntries.FEntry` is modelled from its uses in the manager: the constructor and the getters and setters of name, size and first node.
- `RandomAccessFile` I/O: a seek followed by a read or write is an access to one block of `disk`. I/O exceptions during reads and writes are not modelled. The only failure kept is the constructor's sizing of the file to a negative length, as `IOFailure`.
- FileSystemManager.Init: the content of the backing file after `setLength` is an input (`image`), not assumed to be zero.
- `Math.ceil` on a `double` is modelled as exact integer ceiling division. The two agree for every size up to 32767.
- FileSystemManager.WriteFile: the `short` casts of the size and first block are not modelled as truncation. `WriteFile` requires the content to be at most 32767 bytes and the device at most 32768 blocks, where the casts are exact.
- FileSystemManager.ReadFile, FileSystemManager.WriteFile, FileSystemManager.DeleteFile and FileSystemManager.FreeFileBlocks require the invariant `Valid`. The constructor establishes it (`Properties.InitValid`) and every operation keeps it. In a state that breaks it, the Java chain walks could loop or index out of range; that is not modelled.
- FileSystemManager.DeleteFile: its own contract states only the outcome. The full effect on entries, bitmap, nodes and blocks is stated by `Lifecycle.DeleteFileEffect` and `Lifecycle.DeleteThenRead`.
- FileSystemManager.WriteFile: its own contract states only the outcome and the table sizes. What a write does is stated by `Theorems.WriteFileCases`, `Theorems.WriteFileAllocation`, `Theorems.WriteFileOutOfSpace`, `Theorems.WriteFileEmpty`, `Theorems.WriteThenRead` and `Theorems.WriteFileKeepsOthers`.

## Findings

| source | as written | input that shows it | evidently intended | confidence | as-written member | corrected member |
|---|---|---|---|---|---|---|
| FileServer/src/main/java/ca/concordia/filesystem/FileSystemManager.java:165-188 | `writeFile` calls `freeFileBlocks` (`:166`) before the space check (`:186`); the rollback at `:220-224` only re-marks the newly collected blocks free | a device of 1 block holding a 1-byte file `a`; `writeFile("a", 129 bytes)` needs 2 blocks, fails with InsufficientSpace, and `readFile("a")` then returns an empty buffer | a write that fails leaves the file, its chain and the bitmap as they were | medium; not executed | AtomicWrite.WriteFileLosesContent | AtomicWrite.AtomicWriteFile |

The corrected write keeps the code's space rule, counting the file's own
blocks as available, and runs the check before anything is released. It
fails on exactly the inputs where `writeFile` fails
(`AtomicWrite.AtomicWriteAgrees`). When it fails it changes nothing, and
when it succeeds it reads back what it wrote
(`AtomicWrite.AtomicWriteThenRead`). The rest of the model keeps `WriteFile`
as written, because that is what the manager does.
