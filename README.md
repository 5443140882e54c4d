# xv6 buffer cache and `find` path logic, in Dafny

This project models two pieces of an xv6 (RISC-V) lab repository and proves
properties of them.

**The block buffer cache, `kernel/bio.c`.** A fixed pool of `NBUF` slots
(`struct buf`: `dev`, `blockno`, `valid`, `refcnt`, `lastused`) is spread over
`HASHNUM` hash buckets. A block lives in bucket `blockno % HASHNUM`.
- `bget` looks a block up in that home bucket only. On a hit it takes one more
  reference and stamps `lastused`.
- On a miss it scans for a free slot with the smallest `lastused`. It re-tags
  that slot, unlinks it from its old bucket and pushes it at the head of the
  home bucket. With no such slot it panics.
- `bread` adds a device read when the slot is not valid. `bwrite` and `brelse`
  panic unless the caller holds the slot's sleep-lock. `brelse`, `bpin` and
  `bunpin` adjust `refcnt` only.

**The path logic of `user/find.c`.**
- `fmtname` yields the last component of a path.
- The directory case of `find` guards the path length, filters directory
  entries and writes each child path in place into a 512-byte buffer.

## Files

- `bcache.dfy`, module `BCache`: the cache as a value. `Cache(bufs, bks)`
  holds the slots and, for each bucket, the slot numbers it links, head
  first. The file defines:
  - the bucket invariant `Partition`;
  - the lookup `FirstMatch`/`Cached`;
  - the victim scan: its loops `ScanBucket`, `SearchFirst`, `Refine` and
    `FindVictim`, proved against the specification `Victim`;
  - the state change of `bget` as the function `Get`;
  - the specifications of `binit`, `bread`, `bpin` and `bunpin`
    (`Initial`, `Read`, `Pin`, `Unpin`);
  - the lemmas about all of these.
- `bio.dfy`, module `Bio`: class `BufferCache`. It holds the slot array
  `buf`, the bucket array `hashing` and the per-slot sleep-lock flags
  `locked`, plus ghost counters of device reads and writes. Each of `binit`,
  `bget`, `bread`, `bwrite`, `brelse`, `bpin` and `bunpin` is a method that
  updates these arrays in place. Its `ensures` ties the new state to the
  value model.
- `find.dfy`, module `Find`:
  - `LastComponent` and its lemmas;
  - the backward pointer walk of `fmtname` (`NameStart`) and its copy into
    the static buffer (`FmtName`);
  - the entry filter `Descend` and the visited paths `Visits`;
  - the in-place directory listing `ListDir` over a 512-character array.

Behaviour the model reproduces as the code has it. In places this
differs from what the source's own comments say (`kernel/bio.c:36-38`,
`kernel/bio.c:198`, `user/find.c:17`) or from plain LRU eviction:
- **Bucket 0 can be skipped.** When the home bucket already holds a
  candidate, the second loop breaks with `i == 0`. The refinement loop then
  starts at bucket 1, so bucket 0 is compared only when it is the home
  bucket. The victim always comes from a scanned bucket (`VictimSpec`). It is
  guaranteed to be the least recently used free slot of the whole pool when
  the home bucket is 0 or holds no candidate (`VictimIsGlobalLru`).
  `BucketZeroSkipped` gives a two-bucket cache where an older free slot in
  bucket 0 is passed over.
- **Strict `<` against `minticks = 0xffffffff`.** Ties go to the first slot
  in scan order. A free slot whose `lastused` is `0xffffffff` is never
  chosen (`Candidate`): `bget` panics when it is the only free slot.
- **The list is not recency-ordered.** The comment at `kernel/bio.c:36-38`
  says the lists are sorted by recency. The one at line 198 says `brelse`
  moves the buffer to the most-recently-used end. Neither holds: the lists
  change only on a miss, and `brelse` only decrements `refcnt` (`Brelse`,
  `Unpin`).
- **No padding in `fmtname`.** The comment at `user/find.c:17` promises a
  blank-padded name. Both branches return exactly the last component
  (`FmtName`).
- **`binit` initial state.** Every slot keeps C's static zero
  initialisation: tag `(0, 0)` and `lastused` 0. All slots go into bucket 0
  in the order `NBUF-1, ..., 0`. A first lookup of block 0 of device 0
  therefore hits slot `NBUF-1`, which is not valid, so `bread` reads it.

## Model

| member | source | states |
|---|---|---|
| BCache.ExactlyOneBucket | kernel/bio.c:56-64 | under the bucket invariant a slot is listed in bucket `b` exactly when `b` is its home bucket `blockno % HASHNUM`, and only once there |
| BCache.PrefixTotal | kernel/bio.c:56-64 | the first `k` buckets together list exactly the slots whose home bucket is below `k` |
| BCache.PoolSize | kernel/bio.c:56-64 | the buckets together list exactly `NBUF` slots: the pool never grows or shrinks |
| BCache.FirstMatch | kernel/bio.c:78-88 | the position found holds a slot tagged `(dev, blockno)` and no earlier position does; no position at all when none is tagged |
| BCache.CachedMissMeansAbsent | kernel/bio.c:74-88 | searching only the home bucket misses exactly when no slot of the whole pool is tagged `(dev, blockno)` |
| BCache.Tagged | kernel/bio.c:80 | the hit test: a slot holds block `(dev, blockno)` when both fields match |
| BCache.Candidate | kernel/bio.c:101 | the scan test `refcnt == 0 && lastused < minticks` at its start value `0xffffffff`: only such a slot can ever be kept, so one with `lastused == 0xffffffff` never is; the same test is at lines 117 and 138 |
| BCache.Partition | kernel/bio.c:74-88 | the bucket invariant: every listed slot exists and lies in bucket `blockno % HASHNUM`, no bucket lists a slot twice, and every slot is listed in its home bucket; `ExactlyOneBucket` and `PoolSize` draw its consequences |
| BCache.Cached | kernel/bio.c:74-88 | the slot the hit path returns, if any, exists and carries the tag `(dev, blockno)` |
| BCache.LookupHome | kernel/bio.c:78-88 | the hit loop over the home bucket returns the first tagged position (`FirstMatch`) |
| BCache.Oldest | kernel/bio.c:100-107 | the slot the strict-`<` scan keeps is a candidate: `refcnt == 0` and `lastused < 0xffffffff` |
| BCache.OldestIsFirstMinimum | kernel/bio.c:101-105 | the scan finds a slot exactly when a compared slot is a candidate; the one kept has the least `lastused` of all free slots compared, and every free slot compared before it is strictly younger |
| BCache.SeenBounded | kernel/bio.c:99-150 | the scans compare only existing slots |
| BCache.Seen | kernel/bio.c:99-150 | the slots in the order the scans compare them: the home bucket, then buckets `lo .. hi-1` in ascending order with the home bucket skipped; its meaning is stated by `SeenBounded`, `SeenCovers` and `SeenIn` |
| BCache.SeenIn | kernel/bio.c:99-150 | every slot compared comes from the home bucket or from a bucket of the scanned range |
| BCache.SeenHome | kernel/bio.c:99-150 | under the bucket invariant, a compared slot's home bucket is the home bucket or lies in the scanned range |
| BCache.FirstOther | kernel/bio.c:110-133 | the lowest bucket other than the home bucket that the two scans compare: 1 when the home bucket holds a candidate (the loop at line 110 breaks at once with `i == 0` and line 133 starts at 1), else 0 (the first loop starts at bucket 0 and the refinement continues after it) |
| BCache.FirstOtherIff | kernel/bio.c:99-112 | the refinement starts at bucket 1 exactly when the home bucket holds a candidate |
| BCache.SeenCovers | kernel/bio.c:99-150 | every slot of the home bucket and of each bucket in the scanned range is compared |
| BCache.Victim | kernel/bio.c:90-150 | the victim, when there is one, is an existing free slot with `lastused < 0xffffffff` |
| BCache.VictimSpec | kernel/bio.c:90-150 | there is no victim (the `bget: no buffers` panic) exactly when no slot of the pool is a candidate; otherwise the victim is a candidate whose home is the home bucket or at least `FirstOther` (a scanned bucket, so never bucket 0 when bucket 0 is skipped), and no free slot of a scanned bucket is older |
| BCache.VictimNone | kernel/bio.c:130-131 | the scan finds nothing, so `bget` panics, exactly when no slot of the pool is a candidate |
| BCache.VictimScanned | kernel/bio.c:99-150 | the victim lies in the home bucket or in a bucket not below `FirstOther` |
| BCache.VictimOldest | kernel/bio.c:101-105 | no free slot of a scanned bucket is older than the victim |
| BCache.VictimIsGlobalLru | kernel/bio.c:99-128 | when the home bucket is 0 or holds no candidate, the victim has the least `lastused` of all free slots |
| BCache.BucketZeroSkipped | kernel/bio.c:110-112 | with buckets `[[0], [1]]`, both slots free and slot 0 older, a miss on a block of bucket 1 evicts slot 1 |
| BCache.TracksStep | kernel/bio.c:101-106 | one comparison updates `finded`, `lru_bucket`, `evict_buf` and `minticks` so that they describe the strict-`<` minimum over one more slot |
| BCache.ScanBucket | kernel/bio.c:100-107 | one pass over a bucket leaves the accumulators describing the minimum over the slots compared so far plus that bucket |
| BCache.OldestKeepsFinding | kernel/bio.c:133-146 | once a candidate is held, comparing further slots never loses it (`finded` stays 1) |
| BCache.SearchFirst | kernel/bio.c:99-128 | after the home bucket and the first loop, the accumulators describe the minimum over exactly the buckets scanned; when nothing was found every bucket was scanned |
| BCache.RefineStep | kernel/bio.c:134-149 | one pass of the refinement loop skips the home bucket and otherwise extends the minimum over one more bucket, never losing the slot already found |
| BCache.Refine | kernel/bio.c:133-150 | started after the bucket where the first loop found a candidate, the refinement loop ends with the accumulators describing the minimum over the home bucket and every bucket from `lo` to the last, where `lo` is the lowest non-home bucket the two scans compare (`FirstOther` in `FindVictim`) |
| BCache.FindVictim | kernel/bio.c:90-150 | the loops find a slot exactly when `Victim` exists, and `lru_bucket`/`evict_buf` point at that slot |
| BCache.Without | kernel/bio.c:158-159 | unlinking a slot keeps exactly the other entries, keeps a list duplicate-free and never lengthens it |
| BCache.Relinked | kernel/bio.c:158-164 | the buckets after the relink: the victim heads the home bucket and is listed in no other bucket |
| BCache.UnlinkAt | kernel/bio.c:158-159 | removing the entry at the victim's position of a duplicate-free bucket is `Without` |
| BCache.RelinkAt | kernel/bio.c:158-164 | unlinking at the found position and pushing at the head of the home bucket gives `Relinked`: the victim was listed nowhere else |
| BCache.RelinkedHomes | kernel/bio.c:152-164 | after the re-tag and relink every listed slot exists and lies in its home bucket |
| BCache.RelinkedDistinct | kernel/bio.c:158-164 | after the relink no bucket lists a slot twice |
| BCache.RelinkedCovers | kernel/bio.c:152-164 | after the re-tag and relink every slot, the victim included, is listed in its new home bucket |
| BCache.Get | kernel/bio.c:74-171 | the whole state change of `bget`: the pool and the bucket count keep their sizes, a returned slot exists, and a panic changes nothing; its further properties are `GetHit`, `GetMiss`, `GetReturnsTagged`, `GetValid` and `GetKeepsPartition` |
| BCache.GetKeepsPartition | kernel/bio.c:74-171 | `bget` keeps the bucket invariant and the pool size `NBUF` |
| BCache.GetHit | kernel/bio.c:78-87 | on a hit the first tagged slot of the home bucket is returned with `refcnt + 1` and `lastused = ticks`; no other slot and no list changes |
| BCache.GetMiss | kernel/bio.c:152-164 | on a miss the victim had `refcnt == 0`, becomes `(dev, blockno)`, invalid, `refcnt` 1, `lastused = ticks`, heads the home bucket and is in no other bucket; referenced slots and all other slots are unchanged |
| BCache.GetReturnsTagged | kernel/bio.c:130-131 | the slot returned carries the requested tag and at least one reference; `bget` panics exactly when the block is absent and no slot is a candidate |
| BCache.GetValid | kernel/bio.c:155 | the slot returned is valid exactly when the lookup hit a slot that was valid |
| BCache.Countdown | kernel/bio.c:56-61 | pushing slots `0 .. n-1` at the head gives the list `n-1, ..., 0` |
| BCache.Initial | kernel/bio.c:42-65 | the state `binit` leaves: `NBUF` slots and `HASHNUM` buckets; `InitialWf` states what it guarantees |
| BCache.InitialWf | kernel/bio.c:48-64 | the state `binit` builds satisfies the bucket invariant, lists `NBUF` slots, all in bucket 0 |
| BCache.Read | kernel/bio.c:180-186 | `bread` returns what `bget` returns and changes no bucket list beyond what `bget` does |
| BCache.Fetches | kernel/bio.c:181-185 | whether `bread` calls the device: the slot `bget` returned is not valid; `FetchesIff` states when that happens |
| BCache.ReadReturnsValid | kernel/bio.c:180-186 | `bread` keeps the bucket invariant, returns a valid slot tagged `(dev, blockno)`, and changes nothing when it panics |
| BCache.FetchesIff | kernel/bio.c:181-185 | `bread` reads the device exactly when the block was not already cached in a valid slot |
| BCache.Pin | kernel/bio.c:212-218 | `bpin` keeps the bucket invariant |
| BCache.Unpin | kernel/bio.c:220-226 | `bunpin` (and `brelse` after its lock check) keeps the bucket invariant |
| BCache.PinUnpin | kernel/bio.c:212-226 | `bunpin` undoes `bpin`, and `bpin` undoes `bunpin` on a referenced slot |
| Bio.BufferCache.Init | kernel/bio.c:42-65 | `binit` leaves the state `Initial`: every slot zeroed, all in bucket 0 as `NBUF-1, ..., 0`, other buckets empty, no lock held, no device I/O |
| Bio.BufferCache.LinkAll | kernel/bio.c:55-64 | the second loop of `binit` leaves bucket 0 listing `NBUF-1, ..., 0`, the other buckets empty and every slot zeroed |
| Bio.BufferCache.Bget | kernel/bio.c:67-172 | `bget` on the arrays performs exactly `Get` and keeps the invariant; the caller then holds the returned slot's sleep-lock |
| Bio.BufferCache.Evict | kernel/bio.c:90-171 | the miss path on the arrays (scan, re-tag, unlink, push at head) performs exactly `Get` for an absent block |
| Bio.BufferCache.Bread | kernel/bio.c:174-187 | `bread` performs exactly `Read` and counts one device read exactly when `Fetches` |
| Bio.BufferCache.Bwrite | kernel/bio.c:189-195 | `bwrite` panics unless the caller holds the sleep-lock, and otherwise counts one device write |
| Bio.BufferCache.Brelse | kernel/bio.c:197-210 | `brelse` panics, changing nothing, unless the caller holds the sleep-lock; otherwise it releases the lock and performs `Unpin`, with no list change |
| Bio.BufferCache.Bpin | kernel/bio.c:212-218 | `bpin` performs `Pin` and keeps the invariant |
| Bio.BufferCache.Bunpin | kernel/bio.c:220-226 | `bunpin` performs `Unpin` and keeps the invariant |
| Bio.PinThenUnpin | kernel/bio.c:212-226 | `bpin` followed by `bunpin` restores the cache |
| Find.CStr | user/find.c:56 | the C string in a buffer is the NUL-free prefix before the first NUL |
| Find.CStrOf | user/find.c:72-73 | a NUL written right after a NUL-free prefix makes that prefix the C string |
| Find.Strlen | user/find.c:56 | `strlen` returns the length of the C string |
| Find.PutString | user/find.c:72-73 | `memmove` then the NUL store put the string at the offset and a NUL after it, leaving every other position unchanged |
| Find.LastComponent | user/find.c:12-15 | the last component is a slash-free suffix of the path, preceded by `/` unless it is the whole path |
| Find.LastComponentUnique | user/find.c:12-15 | any slash-free suffix that starts the path or follows a `/` is the last component |
| Find.NoSlashIsWhole | user/find.c:13-15 | a path with no `/` is its own last component |
| Find.TrailingSlashIsEmpty | user/find.c:13-15 | a path ending in `/` has an empty last component |
| Find.ChildRoundTrip | user/find.c:61-74 | for a name without `/`, the last component of `dir + "/" + name` is `name` |
| Find.NameStart | user/find.c:13-15 | the backward walk from the terminating NUL stops one past the last `/`, at the start of `LastComponent` |
| Find.FmtName | user/find.c:6-23 | `fmtname` returns `LastComponent(path)` on both branches; names shorter than `DIRSIZ` are copied and NUL-terminated in the static buffer, longer ones leave it untouched |
| Find.FileMatches | user/find.c:47-52 | a file is reported exactly when its last component equals the target |
| Find.Descend | user/find.c:65-70 | the entry filter: entries with `inum == 0` and the names `.` and `..` are skipped; `VisitsIff` states its effect |
| Find.Visits | user/find.c:63-75 | the recursion visits at most one path per entry |
| Find.VisitsIff | user/find.c:65-74 | a path is visited exactly when it is `dir + "/" + name` for an entry with `inum != 0` and a name other than `.` and `..` |
| Find.VisitedNameMatches | user/find.c:48 | every visited path comes from an entry whose name matches the target exactly when the path's last component does |
| Find.PutChild | user/find.c:71-73 | writing an entry name and a NUL after `dir + "/"` leaves the C string `dir + "/" + name` and keeps the prefix |
| Find.ListDir | user/find.c:54-76 | recursion is refused exactly when `strlen(path) + 1 + DIRSIZ + 1 > 512`, leaving the buffer alone; otherwise the paths recursed with are `Visits(path, entries)`, in order, and the buffer keeps `path + "/"` |

## Left out

- Spinlocks, `bcache.lock`, lock order and blocking in `acquiresleep`: the model is sequential. Only whether the caller holds each slot's sleep-lock is kept, as `locked`. That flag is all `bwrite` and `brelse` test.
- The lock bookkeeping at `kernel/bio.c:139-141` and `166-168`: when the previous best slot was in the home bucket, line 140 releases the home bucket's lock, which line 166 then releases a second time. This is a locking defect outside a sequential model.
- Bio.BufferCache.Brelse: requires `refcnt > 0` when the lock is held; the unsigned `refcnt--` wrap-around on an over-release is not modelled.
- Bio.BufferCache.Bunpin: requires `refcnt > 0` for the same reason.
- Bio.BufferCache.Bget: `refcnt` is unbounded; the 32-bit wrap of `refcnt++` after 2^32 references is not modelled.
- Block contents and `virtio_disk_rw`: the device call is a ghost counter of reads and writes, and the data is not modelled.
- `ticks`: the global timer is a parameter of `Bget` and `Bread`.
- `NBUF` and `HASHNUM` come from `param.h`, which is not part of this model. They are constructor parameters, with at least one bucket.
- Bio.BufferCache.Bget: a caller that already holds the returned slot's sleep-lock would block forever in `acquiresleep`. The model just records the lock as held.
- `find`'s I/O: `open`, `fstat`, `read`, `printf` and `close` are left out. The directory's entries are a parameter of `ListDir`, the file type decides between `FileMatches` (a file) and `ListDir` (a directory), other types do nothing, and the recursive call is recorded as the path it receives.
- The recursive call's own writes to the path buffer. A recursive `find` on a directory child writes `/` at the child's NUL and its own entries' names after it (`user/find.c:61-62, 71-73`). These writes never reach the prefix `dir + "/"`, and the next entry's name and NUL overwrite the start of the child, so the next child's C string is unaffected. Writes past the next entry's NUL survive, and so does everything the last entry's call writes. `ListDir` does not model these writes; its ensures speak only of the prefix and of the C strings passed down.
- Find.ListDir: an entry name of exactly `DIRSIZ` characters has no NUL in `de.name`, so `strlen(de.name)` reads past the entry. The model takes such a name as its 14 characters (`WellFormed`).
- `find` leaves `/` where the caller's NUL was (`ListDir`'s last ensures), so the caller's string is not restored. `main` then runs the next target from a changed path. `main` and its argument handling are not part of this model.
- `user/xargs.c`, `user/primes.c`, `user/pingpong.c`: process and pipe plumbing, not part of this model.
