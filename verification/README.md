# A verified model of the xv6 storage stack, memory, processes and message protocols

This project models the RISC-V xv6 kernel of the repository, its user-level allocator and
grep, and the two programs that send a message in chunks over UDP. It proves what they
promise. `dafny verify dfyconfig.toml` checks all of it. One module is one file.

## What is modelled

**Storage.** `Bio` is the buffer cache: buffers on a doubly linked list in
least-recently-used order, with a disk behind it that changes one whole block at a time.
`Log` is the redo log on top of it, one disk write after the other, with other processes
reading and releasing buffers between any two of them. `LogSpec` says what a crash between
any two of those writes leaves on the disk and what recovery makes of it. `LogProtocol` is
group commit with any number of processes. `FsLayout`, `FsInv` and `Fs` are superblock,
inodes, bitmap, block map and the operations on files. The abstract state is a map from
inode numbers to bytes, and the invariant says that the bitmap marks exactly the metadata
and the blocks that inodes refer to, each of them referred to once. `FileOps` splits long
writes. `CrashFs` puts log and file system together: every disk content that a commit goes
through recovers to the files before the operation or to those after it. `Dir` and `Path`
are directories as finite maps and the walk along a path. `Mkfs` builds the first image, and
`BootTree` shows that the kernel finds on it what mkfs put there.

**Memory.** `PageTable` is the three-level tree of Sv39 (section 4.4 of the RISC-V Privileged
Architecture) as a finite map from pages to entries. `Vm` holds the frame pool and the
operations on page tables, with every failure of kalloc. `FreeList` and `Umalloc` are malloc
and free of the user library: a circular list ordered by address.

**Processes.** `SleepLock` is a sleep lock over sleep and wakeup, `ProcTree` the process
table under fork, exit, kill, wait and waitx. Both are transition systems whose steps are the
sections under a spinlock, and the results hold in every interleaving.

**Messages.** `Chunks` has the sender and the receiver of the chunked transfer,
`ChunkProtocol` both of them over a channel that loses, doubles and reorders. `Virtio` is the
disk driver's ring against a device that completes requests in any order. `Pipe` is the
512-byte ring with wrapping counters.

**grep.** `Regexp` gives patterns a declarative meaning, which the recursive matcher decides.
`Grep` is the loop over the 1024-byte buffer.

`Blocks` (bytes and little-endian words), `Counting` (pigeonhole facts) and `Wrappers` are shared.

## How to read it

A class stands for a C structure or a file's static variables, and its methods for the C
functions; `Valid` is what holds between calls. Ghost fields record what no C variable
holds: `images` in `Bio` is every content the disk has had, `logical` in `Log` the value
last logged for each block and `refs` the references that clients have to each buffer,
`owner` in `Fs` the slot that refers to each block, `tables` and `held` in `Vm` the pages in
use, `live` in `Umalloc` the blocks handed out. Where the C code panics, a method returns
`ok == false`, and its contract says exactly when; where a contract ensures `ok`, the panic
is unreachable. A parameter named `readable` or `room` says how many bytes a copy from or to
user memory can move before it fails.

## Where the code does not do what one might expect

- The log holds one data block less than LOGSIZE, because mkfs counts the header block in it
  (mkfs.c:25). `LogProtocol.PanicIff` says exactly when the guard in log_write can fire although
  every operation keeps to its reservation, and `LogProtocol.MkfsLog` that with the log mkfs
  makes it takes operations of ten distinct blocks. No piece of a write is one: of the ten that
  `FileOps.PieceFits` allows, three are further bitmap blocks, and mkfs's file system has one
  bitmap block. `FileOps.OpenFile.WritePiece` bounds what a piece logs by six and the bitmap
  blocks, and `FileOps.WritesNeverPanic` concludes that writes never make log_write panic there.
- log_write tests the guard before it looks for the block in the list, so a full log panics even
  for a block that is already logged (log.c:220-228). `Log.FsLog.LogWrite` says so.
- mkfs rounds the root directory up past its end when the entries fill the last block
  exactly (mkfs.c:166). The block below the new size is then missing. `Mkfs.Build` states when.
- grep stops at a line that does not fit its buffer with newline and NUL, because read is then
  asked for 0 bytes (grep.c:17). `Grep.Reach` is the place, and `Grep.Grep` is exact about it.
- A pipe reader whose copy to user memory fails has already taken the byte (pipe.c:121-123).
  `Pipe.Pipe.Read` counts it as lost.
- The receiver keeps CHUNK_SIZE bytes of every packet, so only the first msg_len bytes of
  what it rebuilds are determined.

## Model

| member | source | states |
|---|---|---|
| `Bio.Unlink` | initial-xv6/src/kernel/bio.c:128-129 | taking a buffer out of the circle through `head` leaves a circle of exactly the others, in both directions |
| `Bio.Link` | initial-xv6/src/kernel/bio.c:130-133 | putting a buffer behind `head` gives a circle with that buffer as the most recent one |
| `Bio.BufferCache.constructor` | initial-xv6/src/kernel/bio.c:36-53 | binit: every buffer is free and keyed (0,0), and the list holds each of them once |
| `Bio.BufferCache.Lookup` | initial-xv6/src/kernel/bio.c:65-73 | the walk from `head` ends and finds the buffer of a block, or no buffer has that key |
| `Bio.BufferCache.Victim` | initial-xv6/src/kernel/bio.c:77-87 | the walk from the tail ends at the least recently used buffer that nobody references |
| `Bio.BufferCache.Bget` | initial-xv6/src/kernel/bio.c:58-89 | one reference more on the buffer of the block, whoever has it locked; only an unreferenced buffer is ever recycled, the least recently used one; all other buffers are untouched |
| `Bio.BufferCache.Load` | initial-xv6/src/kernel/bio.c:97-102 | what bread does once it has the lock: the buffer gets the bytes on the disk unless it is valid already |
| `Bio.BufferCache.Bread` | initial-xv6/src/kernel/bio.c:92-103 | bget and the read from the disk in one go, for a buffer that nobody has locked: the buffer returned caches the block, is locked and valid; keys stay unique; all other buffers are untouched |
| `Bio.BufferCache.Bwrite` | initial-xv6/src/kernel/bio.c:106-112 | one atomic write: the disk has the buffer's bytes in that block and is otherwise the same |
| `Bio.BufferCache.Brelse` | initial-xv6/src/kernel/bio.c:116-137 | the lock and one reference go; the last reference moves the buffer to the front of the list and leaves the rest of the order alone |
| `Bio.BufferCache.Bpin` | initial-xv6/src/kernel/bio.c:139-144 | exactly one reference more |
| `Bio.BufferCache.Bunpin` | initial-xv6/src/kernel/bio.c:146-151 | exactly one reference less |
| `LogSpec.InstallKeepsRecovery` | initial-xv6/src/kernel/log.c:68-83 | a crash after any number of install writes leaves a disk that recovers to the same home blocks under the same header |
| `LogSpec.RecoveryCompletes` | initial-xv6/src/kernel/log.c:116-123 | a recovery that completes leaves the recovered home blocks at home and an empty header |
| `LogSpec.RecoveryIdempotent` | initial-xv6/src/kernel/log.c:116-123 | recovering again changes no home block |
| `LogSpec.HeaderCommits` | initial-xv6/src/kernel/log.c:99-114 | the header write is the commit point: before it recovery gives the old blocks, from it on the logged ones |
| `LogSpec.CommitAtomic` | initial-xv6/src/kernel/log.c:193-203 | for a crash after any number k of commit's 2n+2 disk writes: recovery gives the old home blocks if k <= n and the new ones if k > n |
| `LogSpec.CrashChainKeepsRecovery` | initial-xv6/src/kernel/log.c:116-123 | any number of crashes inside recovery, each at any write, change nothing that recovery produces |
| `LogSpec.CrashAtomicity` | initial-xv6/src/kernel/log.c:67-123 | crash commit anywhere, crash recovery any number of times, let it finish: all home blocks are as before the transaction or all as after it |
| `LogSpec.HistoryIsAtomic` | initial-xv6/src/kernel/log.c:116-203 | over any history of commits, crashes and recoveries the home blocks are those of a plain map on which each transaction happened as a whole or not at all |
| `Log.FsLog.constructor` | initial-xv6/src/kernel/log.c:54-65 | initlog recovers whatever the last crash left, with exactly the disk writes of LogSpec.RecoveryImage, and starts with an empty log and no reference to any buffer |
| `Log.FsLog.Recover` | initial-xv6/src/kernel/log.c:116-123 | every disk image of recovery is one of LogSpec.RecoveryImage, in order; afterwards the log is empty and each block reads as the disk has it |
| `Log.FsLog.ReadHead` | initial-xv6/src/kernel/log.c:86-97 | the in-memory header is the one on the disk; nothing is written |
| `Log.FsLog.WriteHead` | initial-xv6/src/kernel/log.c:102-114 | one disk write, of the header block only, that stores the count and the list and keeps the other words |
| `Log.FsLog.WriteLog` | initial-xv6/src/kernel/log.c:178-191 | while other processes read: log block i+1 gets the value last logged for the i-th listed block, one write each, in order |
| `Log.FsLog.InstallTrans` | initial-xv6/src/kernel/log.c:68-83 | each log block is copied home, one write each, in order; unless recovering every pin is dropped: no reference is left but the clients', and if no client moves, the buffer of each logged block has exactly one reference less and no other buffer a change; while other processes read |
| `Log.FsLog.Commit` | initial-xv6/src/kernel/log.c:193-203 | with other processes getting, reading and releasing buffers between any two of its steps: the disk images commit goes through are exactly those LogSpec.CrashAtomicity is about; afterwards the disk holds every logged value at home and every reference to a buffer is a client's; if no client moves, each logged block's buffer has exactly one reference less and no other buffer a change |
| `Log.FsLog.LogWrite` | initial-xv6/src/kernel/log.c:214-235 | panics exactly when the log is full or no operation is open; otherwise the block's logged value is the buffer's, it is listed once (absorption), and the buffer gets exactly one reference more if the block is new and none otherwise |
| `Log.FsLog.Read` | initial-xv6/src/kernel/bio.c:92-103 | bread outside a commit returns the value last logged for the block, cached or not, pinned or not, and takes one reference |
| `Log.FsLog.Release` | initial-xv6/src/kernel/bio.c:116-137 | brelse by a client gives exactly its lock and its reference back |
| `Log.FsLog.NeverOut` | initial-xv6/src/kernel/bio.c:77-88 | bget finds a buffer to recycle as long as the clients refer to fewer buffers than the log leaves unpinned: pins do not pile up |
| `Log.FsLog.OtherReads` | initial-xv6/src/kernel/bio.c:92-103 | a bread that ends between any two steps of a running commit also returns the value last logged for its block, and disturbs neither commit nor its buffers |
| `Log.FsLog.OtherGets` | initial-xv6/src/kernel/bio.c:58-89 | a bget by another process between any two steps of a commit leaves the buffers commit holds alone and keeps what commit relies on |
| `Log.FsLog.OtherReleases` | initial-xv6/src/kernel/bio.c:116-137 | a brelse by another process between any two steps of a commit keeps what commit relies on |
| `Log.FsLog.BeginOp` | initial-xv6/src/kernel/log.c:126-142 | an operation enters exactly when no commit runs and the log has room for one more reservation |
| `Log.FsLog.EndOp` | initial-xv6/src/kernel/log.c:146-175 | the panic on `committing` cannot happen; the last operation out commits, through the disk images of LogSpec.CrashAtomicity, and then every block on the disk equals its logged value and no reference is left but the clients'; otherwise neither disk nor buffers change |
| `LogProtocol.NextInv` | initial-xv6/src/kernel/log.c:126-175 | every step of every process keeps the group-commit invariant |
| `LogProtocol.Safety` | initial-xv6/src/kernel/log.c:126-175 | in every reachable state: committing means no operation is open; at rest the log is empty; logged blocks and reserved slots together fit LOGSIZE; end_op's panic is unreachable; nobody sleeps on the log unless an operation or a commit is there to wake him |
| `LogProtocol.CommitFreezes` | initial-xv6/src/kernel/log.c:193-203 | while a commit runs the set of logged blocks changes only when the committing process erases it |
| `LogProtocol.NobodyOversleeps` | initial-xv6/src/kernel/log.c:126-175 | in every reachable state whoever sleeps in begin_op could not enter: a commit runs or the log has no room for one more reservation |
| `LogProtocol.CanEnter` | initial-xv6/src/kernel/log.c:126-175 | no process is shut out: from every reachable state each process can come to be inside an operation |
| `LogProtocol.PanicIff` | initial-xv6/src/kernel/log.c:220-221 | log_write's panic is reachable exactly when the log's data blocks, or LOGSIZE, do not exceed MAXOPBLOCKS + 2k, for operations of at most k blocks |
| `LogProtocol.NoPanic` | initial-xv6/src/kernel/log.c:220-221 | no number of processes reaches the panic if the log holds MAXOPBLOCKS + 2k + 1 data blocks |
| `LogProtocol.MkfsLog` | initial-xv6/src/mkfs/mkfs.c:25 | with the log mkfs makes, header included in LOGSIZE, the panic is reachable if operations may log MAXOPBLOCKS distinct blocks and unreachable if they log fewer |
| `FsLayout.DecodeEncode` | initial-xv6/src/kernel/fs.h:32-39 | an inode written as words reads back |
| `FsLayout.GetOfPutInode` | initial-xv6/src/kernel/fs.c:225-241 | storing an inode into its block leaves the other inodes of the block as they were |
| `FsLayout.BitOfStore` | initial-xv6/src/kernel/fs.c:72-76 | setting or clearing one bit of a bitmap block changes that bit only |
| `FsInv.GrowDirect` | initial-xv6/src/kernel/fs.c:387-395 | a block that balloc marked and zeroed becomes a direct block: the ownership invariant holds again and no file has changed |
| `FsInv.GrowEntry` | initial-xv6/src/kernel/fs.c:408-415 | the same for an entry of the indirect block |
| `FsInv.StoreChunk` | initial-xv6/src/kernel/fs.c:517-522 | storing bytes into a mapped block changes exactly those bytes of exactly that file |
| `FsInv.TrimDirect` | initial-xv6/src/kernel/fs.c:431-436 | freeing a direct block and clearing the slot keeps the invariant and every other file |
| `FsInv.FilesFrame` | initial-xv6/src/kernel/fs.c:382-421 | blocks that no inode owns do not matter to any file |
| `Fs.FileSystem.Balloc` | initial-xv6/src/kernel/fs.c:65-88 | the lowest free block, zeroed, marked and owned by nobody; 0 exactly when every data block is in use |
| `Fs.FileSystem.Bfree` | initial-xv6/src/kernel/fs.c:91-105 | panics exactly on a free block; otherwise clears its bit and no other |
| `Fs.FileSystem.Bmap` | initial-xv6/src/kernel/fs.c:382-421 | the block behind a file block, allocated with its indirect block if need be; no file changes, no owned block moves, and a mapped block is found without any change; the blocks logged are bounded |
| `Fs.FileSystem.Ilock` | initial-xv6/src/kernel/fs.c:292-317 | the in-memory inode is the one on the disk |
| `Fs.FileSystem.Iupdate` | initial-xv6/src/kernel/fs.c:225-241 | the disk has caught up with the in-memory inode; no file changes |
| `Fs.FileSystem.Writei` | initial-xv6/src/kernel/fs.c:505-539 | the file is the old one with the first tot bytes written at off, replacing or extending; no other inode or file changes; -1 exactly when off is past the end or the file would be too long; a short count only before a chunk that the user copy cannot deliver or that needs a new block on a full disk; every block changed or logged is an inode, bitmap or data block, and they are at most the blocks touched, the bitmap blocks, the indirect block and the inode; bitmap and ownership agree again |
| `Fs.FileSystem.Readi` | initial-xv6/src/kernel/fs.c:471-496 | exactly the bytes from off to min(off+n, size); -1 exactly when the user copy fails; nothing is ever allocated or changed; 0 for a start past the end or a sum that wraps |
| `Fs.FileSystem.Itrunc` | initial-xv6/src/kernel/fs.c:425-453 | the file is empty, exactly its own blocks are free, every other inode and file is the same, and the panic of bfree is unreachable |
| `Fs.FileSystem.Ialloc` | initial-xv6/src/kernel/fs.c:198-219 | the first free inode from 1 on becomes an empty one of that type, with all other fields zero; no file changes; 0 exactly when none is free |
| `Fs.FileSystem.Iput` | initial-xv6/src/kernel/fs.c:336-362 | one reference fewer; frees inode and blocks exactly when the last reference to an unlinked file goes, and changes nothing on the disk otherwise |
| `FileOps.PieceFits` | initial-xv6/src/kernel/file.c:148-154 | however a piece of at most 3072 bytes lies, its data, bitmap, indirect and inode blocks are at most MAXOPBLOCKS |
| `FileOps.OneBitmapBlock` | initial-xv6/src/mkfs/mkfs.c:23 | a disk of fewer blocks than one bitmap block has bits has one bitmap block |
| `FileOps.WritesNeverPanic` | initial-xv6/src/kernel/log.c:220-221 | with one bitmap block and the log mkfs makes, the panic of log_write is unreachable for operations that log what a piece of filewrite logs |
| `FileOps.OpenFile.WritePiece` | initial-xv6/src/kernel/file.c:160-165 | one operation: it logs at most MAXOPBLOCKS distinct blocks, and at most six besides bitmap blocks, and advances the offset by what it wrote |
| `FileOps.OpenFile.FileWrite` | initial-xv6/src/kernel/file.c:134-181 | the pieces together are one write of the first done bytes at the offset; the result is n exactly if all were written; what is missing has a reason at exactly that place (a bad offset, the file's maximal size, no block left, a user copy that fails); every operation keeps to its reservation |
| `CrashFs.OperationIsTransaction` | initial-xv6/src/kernel/log.c:205-213 | an operation that logs every block it changes is the transaction that writes those blocks |
| `CrashFs.LoggedIsLoggable` | initial-xv6/src/kernel/log.c:205-235 | however an operation of the file system orders the blocks it logged, they are a list that log_write accepts and commit can write, clear of the log itself |
| `CrashFs.FileSystemOperates` | initial-xv6/src/kernel/log.c:205-235 | what a valid file system has logged since its operation began is a transaction of a history, whatever crashes its commit meets |
| `CrashFs.CrashSafe` | initial-xv6/src/kernel/log.c:193-203 | crash the commit of a file system operation anywhere and recovery any number of times: the disk holds a consistent file system whose files are all as before or all as after |
| `CrashFs.TraceSettles` | initial-xv6/src/kernel/log.c:193-203 | each disk image of a commit recovers, after any number of crashes in recovery, to the files before or the files after |
| `CrashFs.CommitFiles` | initial-xv6/src/kernel/log.c:193-203 | commit itself, between two consistent file systems: the disk ends with the new files, and every image it adds recovers, through any crashes, to the old files or the new ones |
| `CrashFs.HistoryKeepsFs` | initial-xv6/src/kernel/log.c:116-203 | a disk with a consistent file system has one after any history of operations, crashes and recoveries |
| `Mkfs.Image.constructor` | initial-xv6/src/mkfs/mkfs.c:108-115 | an empty image: only free inodes, no block in use past the metadata |
| `Mkfs.Image.Ialloc` | initial-xv6/src/mkfs/mkfs.c:220-232 | the next inode, of the type asked for, empty, with one link; no file changes |
| `Mkfs.Image.Iappend` | initial-xv6/src/mkfs/mkfs.c:252-294 | the file grows by exactly the bytes given and no other file changes; it fails exactly if the file gets too long or the blocks missing, data and indirect, do not fit the image, and takes exactly those |
| `Mkfs.Image.RoundRoot` | initial-xv6/src/mkfs/mkfs.c:164-168 | the root's size is rounded up; every block below the new size is allocated exactly when the old size was not a multiple of BSIZE |
| `Mkfs.RoundHole` | initial-xv6/src/mkfs/mkfs.c:164-168 | an exact multiple gives a root directory with a block missing below its size |
| `Mkfs.Image.Balloc` | initial-xv6/src/mkfs/mkfs.c:234-248 | fails exactly when the blocks used do not fit one bitmap block; otherwise the set bits are exactly the blocks in use |
| `Mkfs.Build` | initial-xv6/src/mkfs/mkfs.c:68-173 | mkfs succeeds if and only if root directory and files are no longer than a file can be, the image has room for the blocks that their sizes take, and these fit one bitmap block; then the image holds the root directory and every file named, and it satisfies the whole file system invariant if and only if the root's entries do not fill their last block |
| `BootTree.EntriesMean` | initial-xv6/src/mkfs/mkfs.c:120-155 | the entries mkfs writes are a directory without double names that maps each file's name to its inode |
| `BootTree.FilesFound` | initial-xv6/src/kernel/fs.c:651-684 | on the image mkfs leaves, the kernel's path walk leads from the root to every file at its inode |
| `Dir.NameCmp` | initial-xv6/src/kernel/fs.c:543-547 | two names compare equal exactly if they agree up to the first NUL or DIRSIZ |
| `Dir.KeyOfField` | initial-xv6/src/kernel/fs.c:598 | strncpy into an entry keeps what counts of a name |
| `Dir.PutName` | initial-xv6/src/kernel/fs.c:598-601 | an entry in a free place adds one name to the directory's map, and no name occurs twice |
| `Dir.ClearName` | initial-xv6/src/kernel/sysfile.c:222-224 | clearing an entry removes exactly its name from the map |
| `Dir.Dirlookup` | initial-xv6/src/kernel/fs.c:551-575 | the map's value for the name, 0 exactly if it has none, and the offset of the entry; nothing changes |
| `Dir.Dirlink` | initial-xv6/src/kernel/fs.c:579-606 | the map gains the name, and the directory grows only if it has no free entry; -1 only if the name is there, or there is no free entry and the directory has its maximal size or needs a block when the disk is full, and then nothing changed; no other inode changes |
| `Dir.ClearEntry` | initial-xv6/src/kernel/sysfile.c:222-224 | unlink's write removes exactly that name; the panic over a short write is unreachable |
| `Path.SkipElem` | initial-xv6/src/kernel/fs.c:622-645 | the first non-empty element, cut at DIRSIZ, and a shorter rest with the remaining elements; a null pointer exactly if there is none |
| `Path.Namex` | initial-xv6/src/kernel/fs.c:651-684 | the loop ends and computes the walk along the elements, or along all but the last for nameiparent, whose name it leaves |
| `Path.NameiWalks` | initial-xv6/src/kernel/fs.c:686-691 | namei follows every element in turn |
| `Path.NameiparentWalks` | initial-xv6/src/kernel/fs.c:693-697 | nameiparent follows all elements but the last and ends in a directory |
| `Path.NameiByParent` | initial-xv6/src/kernel/fs.c:651-697 | on a fixed tree namei(path) is dirlookup of the last element in nameiparent(path) |
| `Path.ElementKeys` | initial-xv6/src/kernel/fs.c:622-645 | an element of a path is non-empty, at most DIRSIZ long, without slash or NUL, and is its own directory name |
| `Path.LookupIsDirlookup` | initial-xv6/src/kernel/fs.c:651-684 | a step of the walk on the tree of a file system is what dirlookup answers in that directory |
| `Path.OneDirChanges` | initial-xv6/src/kernel/fs.c:579-606 | dirlink or unlink in one directory changes the tree of the file system there and nowhere else |
| `PageTable.PteRoundTrip` | initial-xv6/src/kernel/riscv.h:347-352 | packing an aligned address with flags into a PTE loses nothing |
| `PageTable.IndexTriples` | initial-xv6/src/kernel/riscv.h:354-357 | distinct pages have distinct index triples |
| `PageTable.TranslateIsSpace` | initial-xv6/src/kernel/vm.c:68-103 | what a hardware walk finds for a page is what the finite map of that page table says |
| `PageTable.StoreLeaf` | initial-xv6/src/kernel/vm.c:142-192 | writing one last-level entry changes that page of that address space and no other page of any |
| `PageTable.AddTable` | initial-xv6/src/kernel/vm.c:92-100 | hanging a zeroed page into the tree maps nothing and moves nothing; no table page is reached twice |
| `PageTable.DropTable` | initial-xv6/src/kernel/vm.c:286 | dropping a childless table page leaves a tree but for the link to it |
| `Vm.Machine.Freerange` | initial-xv6/src/kernel/kalloc.c:33-40 | every page of the pool is on the free list once |
| `Vm.Machine.Kalloc` | initial-xv6/src/kernel/kalloc.c:68-82 | the first free page, overwritten; 0 exactly when none is free; every address space is the same |
| `Vm.Machine.Kfree` | initial-xv6/src/kernel/kalloc.c:46-63 | panics exactly outside the pool or off a page boundary; otherwise a page that was handed out is free again, and free, table and held pages still partition the pool |
| `Vm.Machine.Walk` | initial-xv6/src/kernel/vm.c:85-103 | the table page with the entry for the page, made on the way if asked; with allocation it fails exactly if there are fewer free pages than tables missing, and takes exactly those; without, exactly where there is no table; no mapping changes |
| `Vm.Machine.Mappages` | initial-xv6/src/kernel/vm.c:142-165 | inserts exactly the pages of the range, in order, into the finite map, up to the first one that is mapped already, where it panics, or to the first for whose missing tables there are not enough free pages |
| `Vm.Machine.Uvmunmap` | initial-xv6/src/kernel/vm.c:170-192 | panics exactly on a misaligned address or at the first page that is not mapped; the pages before it, or all of them, go from the map, and if asked exactly their frames are freed |
| `Vm.Machine.Uvmdealloc` | initial-xv6/src/kernel/vm.c:255-267 | the pages between the two sizes go with their frames, and nothing else |
| `Vm.Machine.Uvmalloc` | initial-xv6/src/kernel/vm.c:225-249 | it succeeds if and only if the pages free at entry are as many as the new pages and the tables missing on the ways to them; then the pages between the sizes are new, zeroed, with the flags given, in fresh frames; on failure every mapping is as before and no frame is lost |
| `Vm.Machine.Uvmcopy` | initial-xv6/src/kernel/vm.c:305-333 | it succeeds if and only if the pages free at entry are as many as the copies and the tables missing on the ways to them; then the child has the parent's pages byte for byte and flag for flag in fresh frames; on failure the child's mappings and the frames held are as before |
| `Vm.Machine.Freewalk` | initial-xv6/src/kernel/vm.c:271-287 | panics exactly if some page below is still mapped; otherwise all table pages below are free and nothing else has changed |
| `Vm.Machine.Uvmcreate` | initial-xv6/src/kernel/vm.c:196-205 | an empty page table in one free page, or 0 and no change exactly if there is none |
| `Vm.Machine.Uvmfree` | initial-xv6/src/kernel/vm.c:291-297 | all frames and table pages of the page table are free; the panic of freewalk is unreachable |
| `Vm.Machine.ProcPagetable` | initial-xv6/src/kernel/proc.c:194-226 | with three free pages, trampoline and trapframe mapped and nothing else; with fewer, 0 and exactly the tables there were before |
| `Vm.Machine.ProcFreepagetable` | initial-xv6/src/kernel/proc.c:229-235 | the free list gains exactly the frames and table pages the process had |
| `Vm.MappedAt` | initial-xv6/src/kernel/vm.c:142-165 | after mappages the map has the right frame and flags at every requested page and its old value everywhere else |
| `FreeList.TiledCovers` | initial-xv6/src/user/umalloc.c:24-44 | blocks that tile the heap: every unit lies in exactly one block, so blocks are pairwise disjoint |
| `FreeList.Conserved` | initial-xv6/src/user/umalloc.c:46-90 | free units plus live units are the units sbrk has given |
| `FreeList.EnterMerged` | initial-xv6/src/user/umalloc.c:33-35 | swallowing the next free block keeps the list circular, ordered and coalesced |
| `FreeList.Joined` | initial-xv6/src/user/umalloc.c:38-40 | being swallowed by the block before keeps the list circular, ordered and coalesced |
| `Umalloc.Heap.FindSpot` | initial-xv6/src/user/umalloc.c:30-32 | the scan of free ends, from wherever freep points, at the one place where the block belongs |
| `Umalloc.Heap.Free` | initial-xv6/src/user/umalloc.c:24-44 | the block is no longer live and lies inside one free block; free units grow by its size; live blocks are untouched; the list stays circular, address-ordered and without adjacent blocks |
| `Umalloc.Heap.Morecore` | initial-xv6/src/user/umalloc.c:46-61 | 0 and no change exactly if sbrk refuses, else at least 4096 units more and a free block large enough |
| `Umalloc.Heap.Carve` | initial-xv6/src/user/umalloc.c:75-84 | a block of exactly n units becomes live, taken from a free one; the other blocks stay |
| `Umalloc.Heap.Malloc` | initial-xv6/src/user/umalloc.c:63-90 | a block of its own that holds nbytes: from the free list whenever one there is large enough, and otherwise exactly if sbrk gives more; 0 only if it refuses; the scan ends and morecore is called at most once |
| `SleepLock.StepInv` | initial-xv6/src/kernel/sleeplock.c:21-41 | every step of every process keeps who holds the lock and who will be woken |
| `SleepLock.MutualExclusion` | initial-xv6/src/kernel/sleeplock.c:21-52 | in every interleaving at most one process holds the sleep lock, and holdingsleep answers truly |
| `SleepLock.NoLostWakeup` | initial-xv6/src/kernel/proc.c:569-616 | whoever sleeps on the lock sleeps because it is held, or because a releaser has yet to come to him |
| `SleepLock.ReleaseWakesAll` | initial-xv6/src/kernel/sleeplock.c:33-41 | at the end of a release nobody is left asleep on the lock |
| `SleepLock.CanHold` | initial-xv6/src/kernel/sleeplock.c:21-41 | no process is shut out: from every state of every run each process, asleep or not, can come to hold the lock |
| `ProcTree.StepInv` | initial-xv6/src/kernel/proc.c:298-470 | every step of fork, exit, kill, wait, waitx and scheduling keeps the invariant of the process table |
| `ProcTree.TreeSafety` | initial-xv6/src/kernel/proc.c:350-410 | in every state of every run a parent is neither UNUSED nor ZOMBIE, only init lacks one, and nobody sleeps in wait beside a zombie of his own |
| `ProcTree.LeavesZombie` | initial-xv6/src/kernel/proc.c:413-470 | a slot leaves ZOMBIE only through wait or waitx by its current parent, which returns its pid |
| `ProcTree.ReapedOnce` | initial-xv6/src/kernel/proc.c:724-777 | no two calls of wait or waitx ever return the same pid |
| `ProcTree.ZombiesAreUnreaped` | initial-xv6/src/kernel/proc.c:367-410 | the pids that have exited and not been reaped are exactly those of the zombies |
| `ProcTree.ExitGivesToInit` | initial-xv6/src/kernel/proc.c:350-401 | exit makes init the parent of exactly the children of the one that exits, which becomes a zombie; it wakes its parent, and init if it has children, out of wait; nothing else changes |
| `ProcTree.ParentIsForker` | initial-xv6/src/kernel/proc.c:298-365 | in every run the parent of a process is the one that forked it until that one exits, and init from then on |
| `ProcTree.ReapsOwn` | initial-xv6/src/kernel/proc.c:413-470 | the pid of a process is returned to the one that forked it, as long as that one has not exited, and to init after that |
| `ProcTree.KilledNeverWaits` | initial-xv6/src/kernel/proc.c:621-644 | in every state of every run no killed process sleeps in wait |
| `ProcTree.CanReap` | initial-xv6/src/kernel/proc.c:413-470 | no zombie has to stay: from every state of every run its parent can come to wait and be given its pid |
| `Chunks.ChunkBounds` | initial-xv6/src/networks/partb/datasequencing.c:65-70 | the chunks lie one behind the other and the last ends where the message does |
| `Chunks.Sender.SendAll` | initial-xv6/src/networks/partb/datasequencing.c:62-74 | every chunk once, in order, and the packets together carry exactly the message |
| `Chunks.Sender.Round` | initial-xv6/src/networks/partb/datasequencing.c:83-126 | one ACK is awaited for each chunk that is open when its turn comes, exactly the ACKs received are marked, and exactly the chunks still open then are resent, each with its bytes; the loop ends exactly when every chunk was acknowledged |
| `Chunks.Receiver.AllChunksAcknowledged` | initial-xv6/src/networks/partb/retransmissions.c:44-54 | true exactly if every chunk below the total is acknowledged |
| `Chunks.Receiver.Handle` | initial-xv6/src/networks/partb/retransmissions.c:77-102 | the first copy of a chunk is kept and counted; a packet is answered exactly if the one before was not; exactly the chunk of an answered packet is marked |
| `Chunks.EveryOther` | initial-xv6/src/networks/partb/retransmissions.c:72-107 | over any sequence of packets exactly every other one is answered |
| `Chunks.MarkedAreAnswered` | initial-xv6/src/networks/partb/retransmissions.c:72-107 | after any sequence of packets the marked chunks are those of the answered packets |
| `Chunks.StoredHaveArrived` | initial-xv6/src/networks/partb/retransmissions.c:72-107 | after any sequence of packets the stored chunks are those that have arrived |
| `Chunks.Receiver.Rebuild` | initial-xv6/src/networks/partb/retransmissions.c:110-118 | the chunks one behind the other, CHUNK_SIZE bytes each |
| `ChunkProtocol.PassIsSteps` | initial-xv6/src/networks/partb/datasequencing.c:83-126 | what the sender's loop does is a run of the protocol's steps |
| `ChunkProtocol.StepInv` | initial-xv6/src/networks/partb/retransmissions.c:72-107 | every step, whatever is lost, doubled or overtaken, keeps the protocol's invariant |
| `ChunkProtocol.AckedIsStored` | initial-xv6/src/networks/partb/datasequencing.c:95-103 | a chunk the sender takes for delivered is stored, with its bytes, and the counter counts the stored chunks |
| `ChunkProtocol.FinishedIsDelivered` | initial-xv6/src/networks/partb/retransmissions.c:72-118 | when the receiver finishes, the first msg_len bytes it has rebuilt are the message |
| `ChunkProtocol.AlwaysCompletes` | initial-xv6/src/networks/partb/retransmissions.c:72-107 | whatever has been lost, doubled or overtaken, every run can go on to a state in which the receiver has finished and the sender has all ACKs |
| `ChunkProtocol.Transfers` | initial-xv6/src/networks/partb/datasequencing.c:47-131 | every message that fits has a run that transfers it |
| `ChunkProtocol.AckedImpliesReceived` | initial-xv6/src/networks/partb/retransmissions.c:72 | the loop condition is decided by the acknowledgements alone |
| `Virtio.AtMostTwo` | initial-xv6/src/kernel/virtio_disk.c:155-213 | eight descriptors make at most two requests at a time |
| `Virtio.WrapEqual` | initial-xv6/src/kernel/virtio_disk.c:303-321 | 16-bit indices that are less than 2^16 apart are equal exactly when the counts are |
| `Virtio.FewUnderWay` | initial-xv6/src/kernel/virtio_disk.c:260-321 | avail->idx minus used_idx modulo 2^16 is the number of requests under way, at most 2, so no ring slot is reused early |
| `Virtio.Driver.AllocDesc` | initial-xv6/src/kernel/virtio_disk.c:156-166 | the first free descriptor, or -1 exactly if there is none |
| `Virtio.Driver.FreeDesc` | initial-xv6/src/kernel/virtio_disk.c:169-182 | panics exactly on a bad index or a free descriptor |
| `Virtio.Driver.Alloc3Desc` | initial-xv6/src/kernel/virtio_disk.c:201-213 | three distinct descriptors, or none and no change; it fails exactly when fewer than three are free |
| `Virtio.Driver.Submit` | initial-xv6/src/kernel/virtio_disk.c:215-277 | one more request at the end of the avail ring, for the sector and the direction asked, on a chain of its own; it sleeps exactly when fewer than three descriptors are free |
| `Virtio.Driver.Fetch` | initial-xv6/src/kernel/virtio_disk.c:227-262 | what the device finds behind the next entry of the avail ring is the oldest request it has not seen: its direction, its sector and its buffer, which it may write exactly for a read |
| `Virtio.Driver.Complete` | initial-xv6/src/kernel/virtio_disk.c:294-327 | the device may complete any request it has fetched, in any order, without overwriting a used entry that is still to be read |
| `Virtio.Driver.Intr` | initial-xv6/src/kernel/virtio_disk.c:294-327 | with the device fetching and completing requests between the rounds of the loop: everything completed up to the last test of the index is released, each once, and the loop ends; no request is lost; the panic over the status is unreachable |
| `Virtio.Driver.FreeChain` | initial-xv6/src/kernel/virtio_disk.c:185-197 | exactly the three descriptors of the chain are freed, without either panic |
| `Virtio.Driver.Finish` | initial-xv6/src/kernel/virtio_disk.c:279-291 | the request is gone, its descriptors are free, and all other requests are untouched |
| `Regexp.MatchHere` | initial-xv6/src/user/grep.c:83-95 | decides whether the pattern's items spell a prefix of the text, to its end after `$`; the recursion terminates |
| `Regexp.MatchStar` | initial-xv6/src/user/grep.c:97-105 | decides the same after any number of the starred character |
| `Regexp.Match` | initial-xv6/src/user/grep.c:71-81 | the matcher decides the declarative meaning of `^`, `.`, `*`, `$` |
| `Grep.StrChr` | initial-xv6/src/user/grep.c:20 | the first newline in the buffer from p on, or none |
| `Grep.SearchBuffer` | initial-xv6/src/user/grep.c:19-27 | the complete lines in the buffer are searched in order and their bytes are restored or left as they were to the right of the last newline |
| `Grep.Grep` | initial-xv6/src/user/grep.c:10-34 | the output is exactly the matching newline-terminated lines, in order, up to the place the loop reaches, however read splits the input |
| `Grep.ReachSplits` | initial-xv6/src/user/grep.c:17-33 | what is left out is what matches behind the first line that does not fit the buffer |
| `Grep.ShortLinesReached` | initial-xv6/src/user/grep.c:17-33 | nothing is left out if every line has at most 1023 bytes with its newline |
| `Pipe.Counters` | initial-xv6/src/kernel/pipe.c:88-98 | the tests on the wrapping counters mean empty and full, and the slot index survives the wrap |
| `Pipe.Pipe.CountersAgree` | initial-xv6/src/kernel/pipe.c:76-130 | nwrite - nread modulo 2^32 is the number of bytes in the ring, at most 512 |
| `Pipe.Pipe.Write` | initial-xv6/src/kernel/pipe.c:76-103 | bytes are accepted in order behind all earlier ones; it sleeps only on a full ring, stops short only at a user copy that fails, and fails exactly without readers or when killed |
| `Pipe.Pipe.Read` | initial-xv6/src/kernel/pipe.c:105-130 | delivers the next bytes in order, as many as there are up to n; sleeps or fails exactly on an empty ring with a writer; all bytes delivered so far are a prefix of those accepted while copies succeed; 0 only on an empty ring without writers |
| `Pipe.Pipe.Close` | initial-xv6/src/kernel/pipe.c:58-74 | the memory goes exactly when both ends are closed |

## Left out

- Bio.BufferCache.Bread: takes a block whose buffer nobody has locked; a bread that waits for the lock is a Bget, then a Lock when the lock is free, then a Load.
- Log.FsLog.Commit: needs a log of at most NBUF blocks; with a larger one the pinned buffers could leave none for the header, and bget would panic.
- Log.FsLog.Await: while a commit runs, the others are taken to give a buffer back when none is free, where bget would panic; they read blocks from the file system's part of the disk only.
- Fs.FileSystem.Bmap: is not modelled for block numbers of MAXFILE and more, which readi and writei rule out before they call it.
- Vm.Machine.Kfree: takes, inside the pool, only pages that are handed out; the code checks neither that a page is free already nor that it is in use as a page table.
- Vm.Machine.Uvmunmap: when it frees, the frames must be distinct pages that are handed out, as for Kfree.
- Vm.Machine.Walk: addresses of MAXVA and above are excluded by its precondition, where the code panics.
- Umalloc.Heap.Malloc: takes sbrk's answer as a parameter, requests of less than 2^31 bytes, a heap that only morecore grows and that stays below 2^32 units.
- Umalloc.Heap.Free: takes live blocks only; the C code checks nothing.
- Chunks.Receiver.Handle: takes sequence numbers below MAX_CHUNKS, which is all that the sender of a message of that size sends; the code does not check them.
- Virtio.Driver.Intr: every request succeeds, so the panic on a bad status is shown unreachable under that assumption only.
- Path.Namex: works on a tree that does not change during the walk; the locks on the inodes along the way are not modelled.
- Pipe.Pipe.Read: reading and sleeping are separate calls, so the wakeups between readers and writers are not part of it.
- In-place update: the buffers of the cache, the pages of memory, the PTEs, the allocator's headers and the descriptor table are sequences and maps held in fields that the methods reassign, not arrays and pointers, so aliasing between C pointers is not captured there. The pipe's ring, grep's buffer and the arrays of sender and receiver are arrays.
- Inside `Fs` a bread, change, log_write and brelse of one block is one atomic read or write of the logical disk; `Log` is where those calls are taken apart.
- Inside `Fs` one operation runs at a time, so at most one inode is newer than the disk; `LogProtocol` interleaves operations, without their contents, and `Log` lets others read while a commit runs.
- iget, idup and the table of in-memory inodes: `Fs.FileSystem.Iput` takes the number of references as a parameter and returns the new one.
- Exhaustion of buffers and in-memory inodes, where the code panics by design, is excluded by preconditions.
- Link counts: nlink of an inode is not tied to the number of its entries.
- A torn write of a single block, and the order in which a device makes writes durable.
- uvmfirst, uvmclear, copyin, copyout and the kernel's own page table.
- The argument of exit, the times of waitx, and the wrap-around of pids after 2^31 processes.
- kill of a slot that is being reused, beyond setting its flag.
- Liveness under fairness: it is proved that a process can always get on (`LogProtocol.CanEnter`, `SleepLock.CanHold`, `ProcTree.CanReap`, `ChunkProtocol.AlwaysCompletes`), not that a scheduler or a network ever lets it; nor that the sender stops when its last ACK is lost.
- The count datagram, the handshake and the timeouts of the chunked transfer: the receiver knows the right count.
- Read errors in grep, and NUL bytes in its input.
- Spinlocks, interrupts and memory fences: a section under a spinlock is one step.
- The console, UART, PLIC, traps, assembly, shell, tests and the tic-tac-toe programs.
