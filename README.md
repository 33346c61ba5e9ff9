# xv6 lab core in Dafny: buffer cache, per-CPU page allocator, find, xargs

This project models four pieces of an xv6 (RISC-V teaching kernel) lab solution and proves
properties about them.

- **Buffer cache** (`kernel/bio.c`, module `BufCache`, file `bio.dfy`):
  - A pool of `NBUF` slots (`struct buf`) is spread over 13 hash buckets.
  - `bget` looks a block up in bucket `BUFMAP_HASH(dev, blockno)`.
  - On a miss it evicts the free slot with the smallest `lastuse`, found by scanning every bucket. The slot moves to the right bucket and is rebound.
  - `bread`, `bwrite`, `brelse`, `bpin` and `bunpin` manage reference counts, the sleeplock owner and the disk.
- **Page allocator** (`kernel/kalloc.c`, module `KAlloc`, file `kalloc.dfy`):
  - There is one free list per CPU.
  - `kfree` validates the page, fills it with 1s and pushes it.
  - `kalloc` pops from its own list. When that list is empty, it steals the first half of the first other non-empty list, then fills the page with 5s.
  - `freerange` frees every whole page of a range.
- **find** (`user/find.c`, module `Find`, file `find.dfy`):
  - It walks a directory tree.
  - `match` prints a file path when the searched name occurs in it.
  - Directory entries are filtered, and child paths are built in a 512-byte buffer.
- **xargs** (`user/xargs.c`, module `Xargs`, file `xargs.dfy`):
  - `readline` reads standard input up to `'\n'` or `'\0'`.
  - Each line is split at spaces into words, each copied into its own `malloc(36)` buffer. The code never checks a word's length against that buffer; the model requires every word to fit (see Left out). The split has the program's own quirk with leading and repeated spaces.
  - The command's arguments, then the words, then a null pointer are handed to `exec`.

Shared pieces:
- `wrappers.dfy` has `Option`.
- `lists.dfy` (module `Lists`) flattens a family of lists, which both kernel modules use.
- `cstrings.dfy` (module `CStrings`) models NUL-terminated byte strings.

How the C structures become Dafny:
- **Buffer cache:**
  - Class `BCache` owns `buf: array<Buf>`, the slots, and `bufmap: array<seq<nat>>`, one list of slot numbers per bucket with the head first.
  - The ownership of the sleeplocks is a ghost set `holding`. The disk is a map field.
  - The cache's logic is also given on values: `Bget`, `Bread` and `Brelse` over a `Cache` snapshot. `Get` and `Read` (and the methods they call) are proved equal to `Bget` and `Bread` on the snapshot. `Write`, `Pin`, `Unpin` and `Release` are specified directly by the slot and disk updates they make, and keep the invariant. The properties are lemmas about those functions.
- **Page allocator:**
  - Class `KMem` owns `freelist: array<seq<nat>>`, one list per CPU with the head first.
  - Page contents are a map `fill` from page address to the byte last written over the page.
  - `Kalloc` on values specifies `KMem.Alloc`.
- **find:**
  - The file system is a map from path to node (file, device, or directory with its `dirent` records).
  - Output is the sequence of lines written.
  - `FindSpec` is the recursive specification that `Find` is proved equal to.
- **xargs:**
  - Standard input is a sequence of characters.
  - The result is the sequence of argument vectors passed to `exec`.
  - `Words` specifies the tokenizer. `Runs` specifies the whole program.

## Model

| member | source | states |
|---|---|---|
| BufCache.Hash | kernel/bio.c:28 | the bucket of a key is always one of the 13 buckets |
| BufCache.HashUsesLowDevBits | kernel/bio.c:28 | the 32-bit shift of `dev` by 27 keeps only its low 5 bits, so devices equal modulo 32 share buckets |
| BufCache.FirstIndex | kernel/bio.c:73-80 | the lookup stops at the first slot in the bucket list bound to (dev, blockno); all earlier ones are bound elsewhere |
| BufCache.ScanFromSpec | kernel/bio.c:96-116 | the scan with strict `<` ends at the least recently released free slot (the earliest such in scan order), or finds none exactly when no slot is free |
| BufCache.VictimSpec | kernel/bio.c:96-119 | the victim exists iff some listed slot has refcnt 0, and it is the one IsVictim describes |
| BufCache.VictimUnique | kernel/bio.c:104 | the tie-breaking makes the victim unique |
| BufCache.VictimLeastRecentlyUsed | kernel/bio.c:96-116 | the victim has refcnt 0 and the smallest lastuse among all free slots of the pool |
| BufCache.Bget | kernel/bio.c:63-140 | the slot bget returns holds (dev, blockno) with refcnt at least 1 |
| BufCache.Bread | kernel/bio.c:143-154 | the slot bread returns is valid; when it read the disk, the data is the disk block |
| BufCache.RelocateOrigin | kernel/bio.c:120-130 | every entry of the relocated lists is the moved slot at the head of bucket h or an old entry at another place |
| BufCache.RelocateConserves | kernel/bio.c:120-130 | unlinking and pushing keeps the multiset of listed slots |
| BufCache.RelocateMember | kernel/bio.c:120-130 | after relocation the moved slot is only in bucket h and every other slot is in the bucket it was in |
| BufCache.RelocateMembership | kernel/bio.c:120-130 | the same membership statement for all buckets and slots at once |
| BufCache.NotCached | kernel/bio.c:73-95 | a miss in the key's bucket means no slot of the pool holds the key (from the invariant) |
| BufCache.RebindUnique | kernel/bio.c:132-135 | rebinding a slot to an uncached key keeps keys unique |
| BufCache.RebindHashed | kernel/bio.c:120-135 | after relocation and rebinding every listed slot sits in the bucket its key hashes to |
| BufCache.RebindKeepsInv | kernel/bio.c:120-135 | relocation plus rebinding keeps the whole cache invariant |
| BufCache.BgetKeepsInv | kernel/bio.c:63-140 | bget keeps the cache invariant: every slot in exactly one bucket, once, in the bucket of its key, keys unique |
| BufCache.BgetHit | kernel/bio.c:73-79 | a cached block (other than the initial key) is returned in place with one more reference and nothing else changed |
| BufCache.BgetMissShape | kernel/bio.c:96-139 | on a miss with a free slot, bget relocates and rebinds the victim |
| BufCache.BgetMiss | kernel/bio.c:96-139 | on a miss the returned slot is the least recently released free slot, rebound with refcnt 1 and valid 0 |
| BufCache.BgetMissBuckets | kernel/bio.c:120-130 | on a miss the returned slot ends up in the key's bucket only; other slots stay in their buckets; lists unchanged if it was already there |
| BufCache.Brelse | kernel/bio.c:166-180 | brelse on one slot drops exactly one reference, stamps lastuse with the current ticks when the count reaches 0 and keeps it otherwise, and leaves the slot's block, payload and valid flag as they were |
| BufCache.BgetPanicsIffExhausted | kernel/bio.c:117-119 | bget panics ("no buffers") iff the block is not cached and every slot has a reference |
| BufCache.BreadValidHitNoIO | kernel/bio.c:148-153 | bread of a cached valid block does no disk read |
| BufCache.BreadMissReadsDisk | kernel/bio.c:148-153 | bread of an uncached block reads it from the disk into a slot with refcnt 1 |
| BufCache.ReleaseThenRead | kernel/bio.c:143-180 | bread, then brelse, then bread of the same block (any key but the initial one) returns the same slot with the same payload, one reference back, and no second disk read, whatever the disk now holds |
| BufCache.ReadAfterRelease | kernel/bio.c:143-180 | after brelse of a valid slot bound to the block, bread is a hit on that slot with refcnt + 1 and unchanged data |
| BufCache.BreadKeepsInv | kernel/bio.c:143-154 | bread keeps the cache invariant and returns a referenced, valid slot bound to the block |
| BufCache.ReleaseKeepsInv | kernel/bio.c:166-180 | brelse of a referenced slot keeps the cache invariant |
| BufCache.SameKeysKeepInv | kernel/bio.c:143-154 | changes that keep every slot's key (data, valid, refcnt, lastuse) keep the invariant |
| BufCache.InitInv | kernel/bio.c:37-58 | the state binit leaves satisfies the cache invariant |
| BufCache.DescSlots | kernel/bio.c:47-55 | pushing slots 0..n-1 onto bucket 0 lists every slot once |
| BufCache.BCache.constructor | kernel/bio.c:37-58 | binit: all slots in bucket 0, last slot first, refcnt 0, lastuse 0, other buckets empty, invariant holds |
| BufCache.BCache.Lookup | kernel/bio.c:73-80 | the loop over the bucket finds the first matching slot or none |
| BufCache.BCache.ScanVictim | kernel/bio.c:96-116 | the nested scan loops compute Victim |
| BufCache.BCache.Get | kernel/bio.c:63-140 | bget on the object equals Bget on its state; the caller, who must not already hold the slot's sleeplock, then holds it; no disk I/O |
| BufCache.BCache.Hit | kernel/bio.c:73-79 | the hit path equals Bget's hit case |
| BufCache.BCache.Evict | kernel/bio.c:81-139 | the miss path equals Bget's miss case |
| BufCache.BCache.Take | kernel/bio.c:120-139 | the miss path after the scan equals Bget's miss case for that victim |
| BufCache.BCache.Install | kernel/bio.c:120-135 | unlink, push and rebind give Relocate and Rebind of the old state |
| BufCache.BCache.Relink | kernel/bio.c:122-130 | the pointer surgery gives Relocate of the old lists |
| BufCache.BCache.Read | kernel/bio.c:143-154 | bread equals Bread on the state; the caller must not already hold the slot; the disk-read counter grows by 1 exactly on a read |
| BufCache.BCache.Write | kernel/bio.c:157-163 | bwrite requires the caller to hold the slot and stores its data as the block's disk contents |
| BufCache.BCache.Release | kernel/bio.c:166-180 | brelse requires the lock, drops it, decrements refcnt and stamps lastuse at 0 |
| BufCache.BCache.Pin | kernel/bio.c:183-189 | bpin adds a reference and keeps the invariant |
| BufCache.BCache.Unpin | kernel/bio.c:192-198 | bunpin removes a reference and keeps the invariant |
| KAlloc.PgRoundUp | kernel/kalloc.c:45 | PGROUNDUP gives the least page boundary at or above the address |
| KAlloc.FirstNonEmpty | kernel/kalloc.c:93-97 | the steal loop picks the first other CPU whose list is non-empty |
| KAlloc.Kalloc | kernel/kalloc.c:77-131 | kalloc on the lists keeps one free list per CPU; what it returns and takes is stated by the lemmas below |
| KAlloc.KfreeAdds | kernel/kalloc.c:67-68 | kfree adds exactly the freed page to the free pages |
| KAlloc.KfreeKeepsNoDup | kernel/kalloc.c:67-68 | freeing a page that is not free keeps every page listed at most once |
| KAlloc.StealSplits | kernel/kalloc.c:99-120 | the steal splits the victim list into the page returned, the stolen part and the rest |
| KAlloc.KallocConserves | kernel/kalloc.c:77-131 | kalloc removes exactly the returned page from the free pages, or changes nothing when every list is empty |
| KAlloc.KallocNullIffEmpty | kernel/kalloc.c:86-130 | kalloc returns 0 iff every CPU's list is empty |
| KAlloc.KallocTakesFreePage | kernel/kalloc.c:77-131 | the returned page was free and no longer is; no page is listed twice |
| KAlloc.KallocSteals | kernel/kalloc.c:93-123 | with an empty own list, kalloc takes the first half (at least one page) of the first non-empty list; the rest stays there; other lists unchanged |
| KAlloc.KfreeThenKalloc | kernel/kalloc.c:54-89 | kalloc right after kfree on the same CPU returns that page and restores the lists |
| KAlloc.AllocKeepsFreeable | kernel/kalloc.c:77-131 | kalloc keeps every listed page a valid page (aligned, above `end`, below PHYSTOP) |
| KAlloc.AllocKeepsValid | kernel/kalloc.c:77-131 | kalloc keeps every page listed at most once |
| KAlloc.RangePagesSpec | kernel/kalloc.c:41-48 | freerange visits exactly the addresses a + k·PGSIZE whose page ends by pa_end (page-aligned when a is, as `PGROUNDUP` makes it) |
| KAlloc.RangePagesFreeable | kernel/kalloc.c:41-58 | every page freerange visits passes kfree's check |
| KAlloc.FillPagesSpec | kernel/kalloc.c:61 | after the fills, each freed page holds the junk byte and other pages are unchanged |
| KAlloc.Rev | kernel/kalloc.c:67-68 | pushing pages one by one leaves them in reverse order, same multiset |
| KAlloc.KMem.constructor | kernel/kalloc.c:31-39 | kinit leaves every page of [PGROUNDUP(end), PHYSTOP) on the initialising CPU's list, last page first, filled with 1s |
| KAlloc.KMem.Free | kernel/kalloc.c:54-72 | kfree panics iff the page is unaligned, below `end` or at/above PHYSTOP; otherwise it pushes it on CPU id's list and fills it with 1s |
| KAlloc.KMem.Alloc | kernel/kalloc.c:77-131 | kalloc equals Kalloc on the lists; the returned page is filled with 5s |
| KAlloc.KMem.Steal | kernel/kalloc.c:99-114 | the fast/slow pointer walk cuts the first StealCount pages off list i onto list id |
| KAlloc.KMem.Middle | kernel/kalloc.c:99-105 | the fast/slow pointer loop stops with p at node n / 2 of a non-empty list and pre one node behind it (at the head when p is the head) |
| KAlloc.KMem.FreeRange | kernel/kalloc.c:41-48 | freerange pushes every page of the range in order and fills each with 1s |
| CStrings.CStr | user/find.c:54-65 | the string in a buffer is its bytes before the first NUL, free of NULs |
| CStrings.CStrAppend | user/find.c:54-56 | a NUL-free prefix is part of the string a buffer holds |
| CStrings.CStrPadded | user/find.c:63-64 | a NUL after a string ends it whatever follows |
| Find.Match | user/find.c:6-26 | match prints path iff name occurs in path at a start index before its end |
| Find.MatchEdges | user/find.c:6-26 | an empty path is never printed; an empty name matches every non-empty path |
| Find.SkipIff | user/find.c:59-62 | entries are skipped iff inum is 0 or the name is "." or ".." |
| Find.Child | user/find.c:54-64 | the child path is path, '/', the entry name up to DIRSIZ bytes; NUL-free and within the guard's length |
| Find.ChildInBuffer | user/find.c:54-64 | the buffer after memmove and the NUL at DIRSIZ holds exactly the child path |
| Find.FoundOnlyFiles | user/find.c:44-69 | every printed path is a regular file containing name and lies under the start path |
| Find.FileAtMostOnce | user/find.c:20-46 | a file is printed at most once, and exactly when name occurs in it |
| Find.LongDirNotEntered | user/find.c:50-53 | a directory whose path fails the length guard only produces the "path too long" line |
| Find.StrLen | user/find.c:55-65 | strlen on the buffer gives the length of the string it holds |
| Find.CopyName | user/find.c:63-64 | memmove of the 14 name bytes then the NUL at DIRSIZ, the rest of the buffer unchanged |
| Find.Find | user/find.c:28-74 | the lines find writes equal FindSpec, for every file-system map |
| Find.DirPrefix | user/find.c:54-56 | strcpy of path then '/' |
| Find.Entry | user/find.c:57-69 | one turn of the read loop writes EntrySpec's lines |
| Xargs.TermIndex | user/xargs.c:8-9 | the first '\n' or '\0' at or after pos |
| Xargs.ReadLine | user/xargs.c:5-18 | readline: 0 iff input ends before any byte; a line is the bytes before the terminator, which is dropped |
| Xargs.Lines | user/xargs.c:36 | the successive lines hold no NUL and no newline |
| Xargs.ScanSpec | user/xargs.c:41-53 | the loop's finished words, each with one following space, then the word being built spell out the bytes read |
| Xargs.StepSpec | user/xargs.c:42-51 | one step of the loop keeps that correspondence |
| Xargs.ScanShape | user/xargs.c:42-51 | finished words are non-empty and hold a space only as their first byte |
| Xargs.WordsSpec | user/xargs.c:41-57 | the words are non-empty, space-free after the first byte, and give back the line joined with single spaces (with or without a final one); an empty line has none |
| Xargs.WordsUnique | user/xargs.c:41-57 | any such sequence of words for a line is the tokenizer's output: every non-separator byte is in exactly one word, in order |
| Xargs.SpaceQuirk | user/xargs.c:42-49 | a space that starts a word is kept: "a  b" gives "a", " b"; " x" gives " x" |
| Xargs.ScanGrows | user/xargs.c:41-57 | the words so far only grow, so per-line bounds bound every intermediate state |
| Xargs.LoopBounds | user/xargs.c:28-38 | bounds on the final words bound the buffers throughout the loop |
| Xargs.ArgvOfSomes | user/xargs.c:58-62 | exec reads back exactly the strings before the null pointer |
| Xargs.ArgvOfRun | user/xargs.c:31-62 | exec receives the copied arguments followed by the line's words |
| Xargs.Tokenize | user/xargs.c:40-58 | the tokenizer stores each word of the line after the arguments, then a null pointer, and nothing else |
| Xargs.WordLoop | user/xargs.c:41-53 | the loop stores the finished words and leaves the last word in the buffer |
| Xargs.Flush | user/xargs.c:54-57 | the trailing word is stored terminated by NUL (the corrected form, see Findings) |
| Xargs.CopyArgs | user/xargs.c:29-35 | argv[1..] is copied into nargv |
| Xargs.RunLine | user/xargs.c:37-58 | one line gives the arguments followed by the line's words |
| Xargs.Run | user/xargs.c:20-68 | usage error iff fewer than 2 arguments; otherwise one exec per line with argv[1..] + Words(line) |
| Xargs.RunsCons | user/xargs.c:36-65 | the runs of a line followed by more lines |
| Xargs.NextLineFits | user/xargs.c:6 | the fit requirements on all lines give readline its 100-byte buffer |
| Xargs.TrailingGarbled | user/xargs.c:54-57 | as written, the trailing word is read with the bytes malloc left after it |

## Left out

- **Locking** (bucket spinlocks, the eviction lock, the kmem locks, push_off/pop_off) and interleaving of CPUs and processes: every operation is one sequential step. Sleeplock blocking becomes a `requires` on the ghost set `holding`: `Write` and `Release` require the caller to hold the slot; `Get` and `Read` require that the caller does not already hold the slot bget would return, since `acquiresleep` on it would then sleep forever.
- BufCache.BCache.Evict: the re-check of the bucket under the eviction lock (kernel/bio.c:86-95) is a no-op sequentially, so it is not modelled.
- BufCache.BCache.Get: `holding_bucket` bookkeeping and lock releases are left out with the locks.
- **`refcnt` width:** `refcnt` is a `nat`, without 32-bit wrap-around. Decrements in `brelse`/`bunpin` require a positive count.
- BufCache.BCache.Release: `ticks` is a parameter; the clock is not modelled.
- **The disk:** it is a map from block to contents. `virtio_disk_rw` and `disk` ownership are not modelled. A ghost counter records reads.
- KAlloc.KMem.Free: requires that the page is not already free. A double free makes the C list cyclic, which a sequence cannot represent.
- KAlloc.KMem.FreeRange: requires that the range lies above `end` and below PHYSTOP, the way kinit calls it, and that its pages are not already free.
- **`end`, PHYSTOP, NCPU and `cpuid()`** are constructor and method parameters. `memlayout.h` and `param.h` are not part of this model.
- **Page contents** are one byte per page (the byte `memset` last wrote), not 4096 bytes.
- Find.Find:
  - `open` and `fstat` failing are merged: a path missing from the map is "cannot open".
  - The file system is a map keyed by the exact path strings. Path resolution of "." and ".." components is not modelled.
  - Standard output and standard error are one sequence of lines.
  - The `main` of find.c (argument check) is not modelled.
- Xargs.Run:
  - It requires that input ends with a terminator. For an unterminated last line, readline returns a buffer with no NUL, whose contents past the bytes read are unspecified.
  - It requires the fixed sizes: each line under 100 bytes, each word under 36 bytes, at most 16 pointers in nargv. It also requires `|argv| <= 16` even when no line is read.
  - `fork`, `exec`, `wait` and `free` are not modelled. When `exec` fails, the child goes on running the loop; this model does not follow it.
  - The usage message is reported as a boolean.
- Xargs.Run: words of 36 bytes or more are excluded. The code (user/xargs.c:47-49) never checks the word's length, so such a word is written past the end of its `malloc(36)` buffer; the model does not represent that overflow.

## Findings

| source | as written | input that shows it | evidently intended | confidence | as-written member | corrected member |
|---|---|---|---|---|---|---|
| user/xargs.c:54-57 | the last word of a line is stored without writing a NUL after it, into a fresh `malloc(36)` buffer | the line "a b": the second word's buffer holds 'b' followed by whatever bytes the allocation held; a non-NUL byte there makes exec receive "b…"; whether such a byte is there depends on what `malloc` hands back, and memory fresh from `sbrk` is zero-filled, so in this program the defect may stay latent | terminate the last word like the others (`*bw = 0` before storing it) | medium, not executed | Xargs.TrailingGarbled | Xargs.Flush |
