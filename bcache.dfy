/** Value-level model of the xv6 block buffer cache (kernel/bio.c): the slot
    records, the hash buckets, the lookup and victim-selection scans, and the
    state change `bget` makes, with the invariants they keep. */
module BCache {

  /** Largest C `uint`; also the initial value of `minticks` in the victim scan. */
  const MAXTICKS: int := 0xffff_ffff

  /** C `uint` (32 bits). */
  type uint = x: int | 0 <= x <= MAXTICKS

  /** One `struct buf` slot: identity, validity, holders and last-use time.
      The block contents are not modelled. */
  datatype Buf = Buf(dev: uint, blockno: uint, valid: bool, refcnt: nat, lastused: uint)

  /** The whole cache as a value: `bufs` is `bcache.buf`, `bks[i]` lists the slot
      indices of bucket `hashing[i]` from `head.next` onwards. */
  datatype Cache = Cache(bufs: seq<Buf>, bks: seq<seq<nat>>)

  /** What `bget` hands back: a slot, or the kernel panic it raises. */
  datatype Outcome = Got(slot: nat) | Panic(msg: string)

  predicate Tagged(b: Buf, dev: uint, blockno: uint) {
    b.dev == dev && b.blockno == blockno
  }

  /** A slot that no holder references. */
  predicate Free(b: Buf) {
    b.refcnt == 0
  }

  /** A slot the eviction scan can pick: free, and older than the initial
      `minticks` (the test at kernel/bio.c:101 is a strict `<`). */
  predicate Candidate(b: Buf) {
    b.refcnt == 0 && b.lastused < MAXTICKS
  }

  predicate Distinct(q: seq<nat>) {
    forall p, r :: 0 <= p < r < |q| ==> q[p] != q[r]
  }

  predicate Bounded(q: seq<nat>, n: nat) {
    forall p :: 0 <= p < |q| ==> q[p] < n
  }

  /** Every bucket lists only existing slots. */
  predicate AllBounded(bks: seq<seq<nat>>, n: nat) {
    forall b :: 0 <= b < |bks| ==> Bounded(bks[b], n)
  }

  /** The bucket invariant: at least one bucket; every listed slot exists and
      lies in bucket `blockno % HASHNUM`; no bucket lists a slot twice; every
      slot is listed in its home bucket. */
  ghost predicate Partition(bufs: seq<Buf>, bks: seq<seq<nat>>) {
    && |bks| >= 1
    && AllBounded(bks, |bufs|)
    && (forall b, p :: 0 <= b < |bks| && 0 <= p < |bks[b]| ==> bufs[bks[b][p]].blockno % |bks| == b)
    && (forall b :: 0 <= b < |bks| ==> Distinct(bks[b]))
    && (forall s :: 0 <= s < |bufs| ==> s in bks[bufs[s].blockno % |bks|])
  }

  ghost predicate Wf(c: Cache) {
    Partition(c.bufs, c.bks)
  }

  /** A slot lies in exactly one bucket, its home bucket, and only once. */
  lemma ExactlyOneBucket(bufs: seq<Buf>, bks: seq<seq<nat>>, s: nat)
    requires Partition(bufs, bks) && s < |bufs|
    ensures forall b :: 0 <= b < |bks| ==> (s in bks[b] <==> b == bufs[s].blockno % |bks|)
    ensures forall b, p, q ::
              (0 <= b < |bks| && 0 <= p < |bks[b]| && 0 <= q < |bks[b]| && bks[b][p] == s && bks[b][q] == s)
              ==> p == q
  {
    forall b | 0 <= b < |bks| && s in bks[b]
      ensures b == bufs[s].blockno % |bks|
    {
      var p :| 0 <= p < |bks[b]| && bks[b][p] == s;
    }
    forall b, p, q | 0 <= b < |bks| && 0 <= p < |bks[b]| && 0 <= q < |bks[b]|
                     && bks[b][p] == s && bks[b][q] == s
      ensures p == q
    {
      assert Distinct(bks[b]);
    }
  }

  // ---------------------------------------------------------------------
  // Pool size

  /** Number of slots listed over all buckets. */
  function Total(bks: seq<seq<nat>>): nat {
    if bks == [] then 0 else Total(bks[..|bks| - 1]) + |bks[|bks| - 1]|
  }

  /** The slots a list names. */
  function Elems(q: seq<nat>): set<nat> {
    set x | x in q
  }

  lemma {:induction false} DistinctCard(q: seq<nat>)
    requires Distinct(q)
    ensures |Elems(q)| == |q|
  {
    if q != [] {
      var init := q[..|q| - 1];
      assert Distinct(init);
      DistinctCard(init);
      var last := q[|q| - 1];
      assert last !in init by {
        forall p | 0 <= p < |init| ensures init[p] != last {
          assert q[p] != q[|q| - 1];
        }
      }
      assert q == init + [last];
      assert Elems(q) == Elems(init) + {last};
    }
  }

  /** The slot numbers `0 .. n-1`. */
  function Upto(n: nat): (r: set<nat>)
    ensures forall x: int :: x in r <==> 0 <= x < n
    ensures |r| == n
  {
    if n == 0 then {}
    else
      var r0 := Upto(n - 1);
      assert n - 1 !in r0;
      r0 + {n - 1}
  }

  /** The slots whose home bucket is below `k`. */
  ghost function HomeBelow(bufs: seq<Buf>, h: nat, k: nat): set<nat>
    requires h >= 1
  {
    set s | s in Upto(|bufs|) && bufs[s].blockno % h < k
  }

  /** The slots whose home bucket is `b`. */
  ghost function HomeOf(bufs: seq<Buf>, h: nat, b: nat): set<nat>
    requires h >= 1
  {
    set s | s in Upto(|bufs|) && bufs[s].blockno % h == b
  }

  /** A bucket lists exactly the slots whose home it is. */
  lemma BucketIsHome(bufs: seq<Buf>, bks: seq<seq<nat>>, b: nat)
    requires Partition(bufs, bks) && b < |bks|
    ensures Elems(bks[b]) == HomeOf(bufs, |bks|, b)
  {
    forall x | x in Elems(bks[b]) ensures x in HomeOf(bufs, |bks|, b) {
      var p :| 0 <= p < |bks[b]| && bks[b][p] == x;
    }
  }

  lemma HomeBelowStep(bufs: seq<Buf>, h: nat, k: nat)
    requires h >= 1 && k >= 1
    ensures HomeBelow(bufs, h, k) == HomeBelow(bufs, h, k - 1) + HomeOf(bufs, h, k - 1)
    ensures HomeBelow(bufs, h, k - 1) !! HomeOf(bufs, h, k - 1)
  {
  }

  lemma {:induction false} PrefixTotal(bufs: seq<Buf>, bks: seq<seq<nat>>, k: nat)
    requires Partition(bufs, bks) && k <= |bks|
    ensures Total(bks[..k]) == |HomeBelow(bufs, |bks|, k)|
  {
    var h := |bks|;
    if k == 0 {
      assert HomeBelow(bufs, h, 0) == {};
    } else {
      PrefixTotal(bufs, bks, k - 1);
      assert bks[..k][..k - 1] == bks[..k - 1];
      HomeBelowStep(bufs, h, k);
      BucketIsHome(bufs, bks, k - 1);
      DistinctCard(bks[k - 1]);
    }
  }

  /** The pool never grows or shrinks: the buckets together list exactly the
      NBUF slots. */
  lemma PoolSize(bufs: seq<Buf>, bks: seq<seq<nat>>)
    requires Partition(bufs, bks)
    ensures Total(bks) == |bufs|
  {
    PrefixTotal(bufs, bks, |bks|);
    assert bks[..|bks|] == bks;
    assert HomeBelow(bufs, |bks|, |bks|) == Upto(|bufs|);
  }

  // ---------------------------------------------------------------------
  // Cache hit (kernel/bio.c:74-88)

  /** Position of the first slot of `list` tagged `(dev, blockno)`. */
  function FirstMatch(bufs: seq<Buf>, list: seq<nat>, dev: uint, blockno: uint): (r: Option<nat>)
    requires Bounded(list, |bufs|)
    ensures r.Some? ==> r.value < |list| && Tagged(bufs[list[r.value]], dev, blockno)
    ensures r.Some? ==> forall p :: 0 <= p < r.value ==> !Tagged(bufs[list[p]], dev, blockno)
    ensures r.None? ==> forall p :: 0 <= p < |list| ==> !Tagged(bufs[list[p]], dev, blockno)
    decreases |list|
  {
    if list == [] then None
    else if Tagged(bufs[list[0]], dev, blockno) then Some(0)
    else match FirstMatch(bufs, list[1..], dev, blockno)
      case None => None
      case Some(k) => Some(k + 1)
  }

  /** The slot a lookup of `(dev, blockno)` hits: the first match in its home bucket. */
  ghost function Cached(c: Cache, dev: uint, blockno: uint): (r: Option<nat>)
    requires Wf(c)
    ensures r.Some? ==> r.value < |c.bufs| && Tagged(c.bufs[r.value], dev, blockno)
  {
    var home := c.bks[blockno % |c.bks|];
    match FirstMatch(c.bufs, home, dev, blockno)
    case None => None
    case Some(p) => Some(home[p])
  }

  /** A lookup misses exactly when no slot anywhere is tagged `(dev, blockno)`:
      searching only the home bucket loses nothing. */
  lemma CachedMissMeansAbsent(c: Cache, dev: uint, blockno: uint)
    requires Wf(c)
    ensures Cached(c, dev, blockno).None? <==>
              forall s :: 0 <= s < |c.bufs| ==> !Tagged(c.bufs[s], dev, blockno)
  {
    var index := blockno % |c.bks|;
    var home := c.bks[index];
    if Cached(c, dev, blockno).None? {
      forall s | 0 <= s < |c.bufs| ensures !Tagged(c.bufs[s], dev, blockno) {
        var b := c.bufs[s].blockno % |c.bks|;
        assert s in c.bks[b];
        var p :| 0 <= p < |c.bks[b]| && c.bks[b][p] == s;
      }
    }
  }

  /** The loop at kernel/bio.c:78-88: walk the home bucket from its head. */
  method LookupHome(bufs: seq<Buf>, list: seq<nat>, dev: uint, blockno: uint) returns (r: Option<nat>)
    requires Bounded(list, |bufs|)
    ensures r == FirstMatch(bufs, list, dev, blockno)
  {
    var k := 0;
    while k < |list|
      invariant 0 <= k <= |list|
      invariant forall p :: 0 <= p < k ==> !Tagged(bufs[list[p]], dev, blockno)
    {
      if bufs[list[k]].dev == dev && bufs[list[k]].blockno == blockno {
        return Some(k);
      }
      k := k + 1;
    }
    return None;
  }

  // ---------------------------------------------------------------------
  // Victim selection (kernel/bio.c:90-150)

  /** Position in `cands` of the slot the strict-`<` scan settles on: the
      candidate kept by `if (refcnt == 0 && lastused < minticks)` when the
      slots are compared in order. */
  function Oldest(bufs: seq<Buf>, cands: seq<nat>): (r: Option<nat>)
    requires Bounded(cands, |bufs|)
    ensures r.Some? ==> r.value < |cands| && Candidate(bufs[cands[r.value]])
    decreases |cands|
  {
    if cands == [] then None
    else
      var init := cands[..|cands| - 1];
      var last := bufs[cands[|cands| - 1]];
      var r0 := Oldest(bufs, init);
      if Candidate(last) && (r0.None? || last.lastused < bufs[init[r0.value]].lastused)
      then Some(|cands| - 1)
      else r0
  }

  /** The scan finds a slot exactly when some slot compared is a candidate,
      and it keeps the first candidate with the least `lastused`: no free slot
      compared is older, and every free slot compared before it is strictly
      younger (ties go to the first in scan order). */
  lemma {:induction false} OldestIsFirstMinimum(bufs: seq<Buf>, cands: seq<nat>)
    requires Bounded(cands, |bufs|)
    ensures Oldest(bufs, cands).None? <==> forall j :: 0 <= j < |cands| ==> !Candidate(bufs[cands[j]])
    ensures Oldest(bufs, cands).Some? ==>
              var k := Oldest(bufs, cands).value;
              && (forall j :: 0 <= j < |cands| && Free(bufs[cands[j]]) ==>
                    bufs[cands[k]].lastused <= bufs[cands[j]].lastused)
              && (forall j :: 0 <= j < k && Free(bufs[cands[j]]) ==>
                    bufs[cands[k]].lastused < bufs[cands[j]].lastused)
    decreases |cands|
  {
    if cands != [] {
      var init := cands[..|cands| - 1];
      assert Bounded(init, |bufs|);
      OldestIsFirstMinimum(bufs, init);
      assert forall j :: 0 <= j < |init| ==> init[j] == cands[j];
    }
  }

  /** The slots the victim scan compares, in the order it compares them,
      when it looks at the home bucket `index` first and then at every other
      bucket of `[lo, hi)` in ascending order. */
  function Seen(bks: seq<seq<nat>>, index: nat, lo: nat, hi: nat): seq<nat>
    requires index < |bks| && hi <= |bks|
    decreases hi
  {
    if hi <= lo then bks[index]
    else Seen(bks, index, lo, hi - 1) + (if hi - 1 == index then [] else bks[hi - 1])
  }

  /** The scan compares only existing slots. */
  lemma {:induction false} SeenBounded(bufs: seq<Buf>, bks: seq<seq<nat>>, index: nat, lo: nat, hi: nat)
    requires AllBounded(bks, |bufs|) && index < |bks| && hi <= |bks|
    ensures Bounded(Seen(bks, index, lo, hi), |bufs|)
    decreases hi
  {
    if hi > lo {
      SeenBounded(bufs, bks, index, lo, hi - 1);
      assert Bounded(bks[hi - 1], |bufs|);
    }
  }

  /** Every slot of the home bucket and of each bucket of `[lo, hi)` is compared. */
  lemma {:induction false} SeenCovers(bks: seq<seq<nat>>, index: nat, lo: nat, hi: nat, b: nat)
    requires index < |bks| && hi <= |bks|
    requires b == index || lo <= b < hi
    ensures forall x :: x in bks[b] ==> x in Seen(bks, index, lo, hi)
    decreases hi
  {
    if hi > lo && (b != hi - 1 || b == index) {
      SeenCovers(bks, index, lo, hi - 1, b);
    }
  }

  /** Conversely, every slot compared comes from the home bucket or from a
      bucket of `[lo, hi)`. */
  lemma {:induction false} SeenIn(bks: seq<seq<nat>>, index: nat, lo: nat, hi: nat, x: nat)
    requires index < |bks| && hi <= |bks|
    requires x in Seen(bks, index, lo, hi)
    ensures exists b: nat :: b < |bks| && (b == index || lo <= b < hi) && x in bks[b]
    decreases hi
  {
    if hi <= lo {
      assert x in bks[index];
    } else if x in Seen(bks, index, lo, hi - 1) {
      SeenIn(bks, index, lo, hi - 1, x);
    } else {
      assert hi - 1 != index && x in bks[hi - 1];
    }
  }

  /** A compared slot's home bucket is the home bucket or lies in `[lo, hi)`. */
  lemma SeenHome(bufs: seq<Buf>, bks: seq<seq<nat>>, index: nat, lo: nat, hi: nat, x: nat)
    requires Partition(bufs, bks) && index < |bks| && hi <= |bks|
    requires x in Seen(bks, index, lo, hi)
    ensures x < |bufs|
    ensures var home := bufs[x].blockno % |bks|; home == index || lo <= home < hi
  {
    SeenIn(bks, index, lo, hi, x);
    var b: nat :| b < |bks| && (b == index || lo <= b < hi) && x in bks[b];
    var p :| 0 <= p < |bks[b]| && bks[b][p] == x;
    assert Bounded(bks[b], |bufs|);
  }

  /** The lowest bucket other than the home bucket that the two scans of
      kernel/bio.c:110-150 compare: 1 when the home bucket holds a candidate
      (the loop at line 110 breaks at once with `i == 0` and the one at line
      133 starts at 1), otherwise 0 (the loop at line 110 starts at bucket 0
      and the one at line 133 continues right after where it stopped). */
  function FirstOther(bufs: seq<Buf>, bks: seq<seq<nat>>, index: nat): (r: nat)
    requires |bks| >= 1 && AllBounded(bks, |bufs|) && index < |bks|
    ensures r <= 1
  {
    if Oldest(bufs, bks[index]).Some? then 1 else 0
  }

  /** The refinement loop starts at bucket 1 exactly when the home bucket
      holds a candidate. */
  lemma FirstOtherIff(bufs: seq<Buf>, bks: seq<seq<nat>>, index: nat)
    requires |bks| >= 1 && AllBounded(bks, |bufs|) && index < |bks|
    ensures FirstOther(bufs, bks, index) == 1 <==>
              exists p :: 0 <= p < |bks[index]| && Candidate(bufs[bks[index][p]])
  {
    assert Bounded(bks[index], |bufs|);
    OldestIsFirstMinimum(bufs, bks[index]);
  }

  /** The slot `bget` evicts on a miss for a block whose home bucket is `index`. */
  function Victim(bufs: seq<Buf>, bks: seq<seq<nat>>, index: nat): (r: Option<nat>)
    requires |bks| >= 1 && AllBounded(bks, |bufs|) && index < |bks|
    ensures r.Some? ==> r.value < |bufs| && Candidate(bufs[r.value])
  {
    var cands := Seen(bks, index, FirstOther(bufs, bks, index), |bks|);
    SeenBounded(bufs, bks, index, FirstOther(bufs, bks, index), |bks|);
    match Oldest(bufs, cands)
    case None => None
    case Some(k) => Some(cands[k])
  }

  /** The scan fails exactly when no slot of the whole pool is a candidate. */
  lemma VictimNone(bufs: seq<Buf>, bks: seq<seq<nat>>, index: nat)
    requires Partition(bufs, bks) && index < |bks|
    ensures Victim(bufs, bks, index).None? <==>
              forall s :: 0 <= s < |bufs| ==> !Candidate(bufs[s])
  {
    var lo := FirstOther(bufs, bks, index);
    var cands := Seen(bks, index, lo, |bks|);
    SeenBounded(bufs, bks, index, lo, |bks|);
    OldestIsFirstMinimum(bufs, cands);
    if lo == 1 {
      // a candidate of the home bucket is among those compared
      var k := Oldest(bufs, bks[index]).value;
      SeenCovers(bks, index, lo, |bks|, index);
      assert bks[index][k] in cands;
    }
    if Oldest(bufs, cands).None? {
      // so every bucket was scanned
      forall s | 0 <= s < |bufs| ensures !Candidate(bufs[s]) {
        SeenCovers(bks, index, lo, |bks|, bufs[s].blockno % |bks|);
        assert s in cands;
      }
    }
  }

  /** The victim comes from a scanned bucket: the home bucket or one not
      below `FirstOther`. */
  lemma VictimScanned(bufs: seq<Buf>, bks: seq<seq<nat>>, index: nat)
    requires Partition(bufs, bks) && index < |bks|
    ensures Victim(bufs, bks, index).Some? ==>
              var hv := bufs[Victim(bufs, bks, index).value].blockno % |bks|;
              hv == index || hv >= FirstOther(bufs, bks, index)
  {
    var lo := FirstOther(bufs, bks, index);
    var cands := Seen(bks, index, lo, |bks|);
    SeenBounded(bufs, bks, index, lo, |bks|);
    match Oldest(bufs, cands)
    case None =>
    case Some(k) =>
      SeenHome(bufs, bks, index, lo, |bks|, cands[k]);
  }

  /** No free slot of a scanned bucket is older than the victim. */
  lemma VictimOldest(bufs: seq<Buf>, bks: seq<seq<nat>>, index: nat)
    requires Partition(bufs, bks) && index < |bks|
    ensures Victim(bufs, bks, index).Some? ==>
              var v := Victim(bufs, bks, index).value;
              forall s :: 0 <= s < |bufs| && Free(bufs[s])
                && (var home := bufs[s].blockno % |bks|; home == index || home >= FirstOther(bufs, bks, index))
                ==> bufs[v].lastused <= bufs[s].lastused
  {
    var lo := FirstOther(bufs, bks, index);
    var cands := Seen(bks, index, lo, |bks|);
    SeenBounded(bufs, bks, index, lo, |bks|);
    OldestIsFirstMinimum(bufs, cands);
    match Oldest(bufs, cands)
    case None =>
    case Some(k) =>
      forall s | 0 <= s < |bufs| && Free(bufs[s])
                 && (bufs[s].blockno % |bks| == index || bufs[s].blockno % |bks| >= lo)
        ensures bufs[cands[k]].lastused <= bufs[s].lastused
      {
        SeenCovers(bks, index, lo, |bks|, bufs[s].blockno % |bks|);
        assert s in cands;
      }
  }

  /** What the victim scan guarantees. It fails (and `bget` panics) exactly
      when no slot of the whole pool is a candidate; otherwise the victim is a
      candidate (so never a referenced slot) from a scanned bucket, and no
      free slot in a scanned bucket is older. A bucket is scanned when it is
      the home bucket or not below `FirstOther`, so bucket 0 escapes the
      scan when the home bucket is not 0 and holds a candidate. */
  lemma VictimSpec(bufs: seq<Buf>, bks: seq<seq<nat>>, index: nat)
    requires Partition(bufs, bks) && index < |bks|
    ensures Victim(bufs, bks, index).None? <==>
              forall s :: 0 <= s < |bufs| ==> !Candidate(bufs[s])
    ensures Victim(bufs, bks, index).Some? ==>
              var v := Victim(bufs, bks, index).value;
              && v < |bufs| && Candidate(bufs[v])
              && (var hv := bufs[v].blockno % |bks|; hv == index || hv >= FirstOther(bufs, bks, index))
              && forall s :: 0 <= s < |bufs| && Free(bufs[s])
                   && (var home := bufs[s].blockno % |bks|; home == index || home >= FirstOther(bufs, bks, index))
                   ==> bufs[v].lastused <= bufs[s].lastused
  {
    VictimNone(bufs, bks, index);
    VictimScanned(bufs, bks, index);
    VictimOldest(bufs, bks, index);
  }

  /** When the home bucket is bucket 0, or holds no candidate, the victim is
      the least recently used free slot of the whole pool. */
  lemma VictimIsGlobalLru(bufs: seq<Buf>, bks: seq<seq<nat>>, index: nat)
    requires Partition(bufs, bks) && index < |bks|
    requires index == 0 || Oldest(bufs, bks[index]).None?
    ensures Victim(bufs, bks, index).Some? ==>
              forall s :: 0 <= s < |bufs| && Free(bufs[s]) ==>
                bufs[Victim(bufs, bks, index).value].lastused <= bufs[s].lastused
  {
    VictimSpec(bufs, bks, index);
  }

  /** Bucket 0 is skipped: with two buckets, a miss on a block of bucket 1
      that holds a free slot keeps that slot although bucket 0 holds an older
      free one. */
  lemma BucketZeroSkipped()
    ensures var bufs := [Buf(0, 0, true, 0, 5), Buf(0, 1, true, 0, 9)];
            var bks := [[0], [1]];
            Partition(bufs, bks) && Victim(bufs, bks, 1) == Some(1)
  {
    var bufs := [Buf(0, 0, true, 0, 5), Buf(0, 1, true, 0, 9)];
    var bks := [[0], [1]];
    assert Oldest(bufs, [1]) == Some(0) by {
      assert [1][..0] == [];
    }
    assert bks[1] == [1];
    assert Partition(bufs, bks) by {
      forall b, p | 0 <= b < |bks| && 0 <= p < |bks[b]|
        ensures bks[b][p] < |bufs| && bufs[bks[b][p]].blockno % |bks| == b
      {
        assert bks[b] == [b];
      }
      forall s | 0 <= s < |bufs| ensures s in bks[bufs[s].blockno % |bks|] {
        assert bks[s] == [s];
      }
    }
    assert FirstOther(bufs, bks, 1) == 1;
    assert Seen(bks, 1, 1, 2) == [1] + [];
  }

  /** Accumulator of the scan loops: `finded`, `lru_bucket`, the position of
      `evict_buf` in that bucket, and `minticks`. */
  datatype Scan = Scan(finded: bool, lruBucket: nat, evictPos: nat, minticks: int)

  /** `s` is the scan's state after comparing the slots `seen`, in order. */
  ghost predicate Tracks(bufs: seq<Buf>, bks: seq<seq<nat>>, seen: seq<nat>, s: Scan) {
    && Bounded(seen, |bufs|)
    && match Oldest(bufs, seen)
       case None => !s.finded && s.minticks == MAXTICKS
       case Some(k) =>
         && s.finded
         && s.lruBucket < |bks| && s.evictPos < |bks[s.lruBucket]|
         && bks[s.lruBucket][s.evictPos] == seen[k]
         && s.minticks == bufs[seen[k]].lastused
  }

  /** Comparing one more slot, `bks[i][k]`, as the loop bodies do. */
  lemma TracksStep(bufs: seq<Buf>, bks: seq<seq<nat>>, seen: seq<nat>, s: Scan, i: nat, k: nat)
    requires AllBounded(bks, |bufs|) && i < |bks| && k < |bks[i]|
    requires Tracks(bufs, bks, seen, s)
    ensures Bounded(seen + [bks[i][k]], |bufs|)
    ensures var j := bks[i][k];
            Tracks(bufs, bks, seen + [j],
                   if bufs[j].refcnt == 0 && bufs[j].lastused < s.minticks
                   then Scan(true, i, k, bufs[j].lastused) else s)
  {
    var cands := seen + [bks[i][k]];
    assert Bounded(bks[i], |bufs|);
    assert cands[..|cands| - 1] == seen;
  }

  /** One pass over bucket `i` (kernel/bio.c:100-107, 116-123, 137-146). */
  method ScanBucket(bufs: seq<Buf>, bks: seq<seq<nat>>, i: nat, s: Scan, ghost seen: seq<nat>)
    returns (s': Scan)
    requires |bks| >= 1 && AllBounded(bks, |bufs|) && i < |bks|
    requires Tracks(bufs, bks, seen, s)
    ensures Tracks(bufs, bks, seen + bks[i], s')
  {
    s' := s;
    ghost var cur := seen;
    var k := 0;
    while k < |bks[i]|
      invariant 0 <= k <= |bks[i]|
      invariant cur == seen + bks[i][..k]
      invariant Tracks(bufs, bks, cur, s')
    {
      var j := bks[i][k];
      TracksStep(bufs, bks, cur, s', i, k);
      if bufs[j].refcnt == 0 && bufs[j].lastused < s'.minticks {
        s' := Scan(true, i, k, bufs[j].lastused);
      }
      assert bks[i][..k + 1] == bks[i][..k] + [j];
      cur := cur + [j];
      k := k + 1;
    }
    assert bks[i][..k] == bks[i];
  }

  /** Once the scan holds a candidate, comparing more slots cannot lose it. */
  lemma OldestKeepsFinding(bufs: seq<Buf>, seen: seq<nat>, more: seq<nat>)
    requires Bounded(seen + more, |bufs|) && Bounded(seen, |bufs|)
    requires Oldest(bufs, seen).Some?
    ensures Oldest(bufs, seen + more).Some?
  {
    var k := Oldest(bufs, seen).value;
    assert (seen + more)[k] == seen[k];
    OldestIsFirstMinimum(bufs, seen + more);
  }

  /** The first two scans of kernel/bio.c:99-128: the home bucket, then the
      other buckets in ascending order until one yields a candidate. On
      success `i` is the bucket where the search stopped (0 when the home
      bucket already had a candidate: the loop breaks before anything else). */
  method SearchFirst(bufs: seq<Buf>, bks: seq<seq<nat>>, index: nat) returns (s: Scan, i: nat, ghost cands: seq<nat>)
    requires |bks| >= 1 && AllBounded(bks, |bufs|) && index < |bks|
    ensures Tracks(bufs, bks, cands, s)
    ensures !s.finded ==> i == |bks| && cands == Seen(bks, index, FirstOther(bufs, bks, index), |bks|)
    ensures s.finded ==> (var lo := FirstOther(bufs, bks, index);
                          lo <= i + 1 && i < |bks| && cands == Seen(bks, index, lo, i + 1))
  {
    s := Scan(false, 0, 0, MAXTICKS);
    assert [] + bks[index] == bks[index];
    s := ScanBucket(bufs, bks, index, s, []);
    cands := bks[index];
    ghost var lo := FirstOther(bufs, bks, index);

    i := 0;
    while i < |bks|
      invariant 0 <= i <= |bks|
      invariant lo == 1 ==> i == 0 && s.finded
      invariant lo == 0 ==> !s.finded
      invariant cands == Seen(bks, index, 0, i)
      invariant Tracks(bufs, bks, cands, s)
    {
      if s.finded {
        break;
      }
      if i == index {
        assert cands + [] == cands;
        i := i + 1;
        continue;
      }
      s := ScanBucket(bufs, bks, i, s, cands);
      cands := cands + bks[i];
      if s.finded {
        break;
      }
      i := i + 1;
    }
  }

  /** One round of the refinement loop (kernel/bio.c:134-149): bucket `i`,
      unless it is the home bucket. A candidate already held is kept or
      replaced by a strictly older one. */
  method RefineStep(bufs: seq<Buf>, bks: seq<seq<nat>>, index: nat, ghost lo: nat, i: nat, s: Scan, ghost cands: seq<nat>)
    returns (s': Scan, ghost cands': seq<nat>)
    requires AllBounded(bks, |bufs|) && index < |bks| && lo <= i < |bks|
    requires Tracks(bufs, bks, cands, s) && s.finded
    requires cands == Seen(bks, index, lo, i)
    ensures Tracks(bufs, bks, cands', s') && s'.finded
    ensures cands' == Seen(bks, index, lo, i + 1)
  {
    if i == index {
      assert cands + [] == cands;
      return s, cands;
    }
    assert Bounded(bks[i], |bufs|);
    OldestKeepsFinding(bufs, cands, bks[i]);
    s' := ScanBucket(bufs, bks, i, s, cands);
    cands' := cands + bks[i];
  }

  /** The refinement scan of kernel/bio.c:133-150: every remaining bucket
      from `i + 1` on, except the home bucket, keeping the strictly older
      candidate. */
  method Refine(bufs: seq<Buf>, bks: seq<seq<nat>>, index: nat, ghost lo: nat, s0: Scan, i0: nat, ghost cands0: seq<nat>)
    returns (s: Scan, ghost cands: seq<nat>)
    requires AllBounded(bks, |bufs|) && index < |bks|
    requires Tracks(bufs, bks, cands0, s0) && s0.finded
    requires lo <= i0 + 1 && i0 < |bks| && cands0 == Seen(bks, index, lo, i0 + 1)
    ensures Tracks(bufs, bks, cands, s) && s.finded
    ensures cands == Seen(bks, index, lo, |bks|)
  {
    s, cands := s0, cands0;
    var i := i0 + 1;
    while i < |bks|
      invariant lo <= i <= |bks|
      invariant cands == Seen(bks, index, lo, i)
      invariant Tracks(bufs, bks, cands, s)
      invariant s.finded
    {
      s, cands := RefineStep(bufs, bks, index, lo, i, s, cands);
      i := i + 1;
    }
  }

  /** The victim search of kernel/bio.c:90-150. */
  method FindVictim(bufs: seq<Buf>, bks: seq<seq<nat>>, index: nat) returns (s: Scan)
    requires |bks| >= 1 && AllBounded(bks, |bufs|) && index < |bks|
    ensures s.finded <==> Victim(bufs, bks, index).Some?
    ensures s.finded ==> (s.lruBucket < |bks| && s.evictPos < |bks[s.lruBucket]|
                          && bks[s.lruBucket][s.evictPos] == Victim(bufs, bks, index).value)
  {
    var i;
    ghost var cands;
    s, i, cands := SearchFirst(bufs, bks, index);
    if !s.finded {
      // kernel/bio.c:130-131: panic("bget: no buffers")
      return;
    }
    s, cands := Refine(bufs, bks, index, FirstOther(bufs, bks, index), s, i, cands);
  }

  // ---------------------------------------------------------------------
  // The state change of bget (kernel/bio.c:74-171)

  /** `q` with every occurrence of slot `v` unlinked. */
  function Without(q: seq<nat>, v: nat): (r: seq<nat>)
    ensures forall x :: x in r <==> x in q && x != v
    ensures Distinct(q) ==> Distinct(r)
    ensures |r| <= |q|
  {
    if q == [] then []
    else if q[0] == v then Without(q[1..], v)
    else
      var rest := Without(q[1..], v);
      assert q[0] !in rest ==> Distinct(q) ==> Distinct([q[0]] + rest) by {
        if q[0] !in rest && Distinct(q) {
          forall p, r | 0 <= p < r < |[q[0]] + rest|
            ensures ([q[0]] + rest)[p] != ([q[0]] + rest)[r]
          {
            if p == 0 {
              assert ([q[0]] + rest)[r] == rest[r - 1];
              assert rest[r - 1] in rest;
            }
          }
        }
      }
      assert Distinct(q) ==> q[0] !in q[1..];
      [q[0]] + rest
  }

  /** Unlinking the element at a known position of a duplicate-free list is
      `Without`. */
  lemma {:induction false} UnlinkAt(q: seq<nat>, pos: nat)
    requires Distinct(q) && pos < |q|
    ensures q[..pos] + q[pos + 1..] == Without(q, q[pos])
  {
    if pos == 0 {
      assert q[..0] + q[1..] == q[1..];
      assert q[0] !in q[1..];
      WithoutAbsent(q[1..], q[0]);
    } else {
      assert Distinct(q[1..]);
      UnlinkAt(q[1..], pos - 1);
      assert q[1..][..pos - 1] + q[1..][pos..] == q[1..pos] + q[pos + 1..];
      assert q[..pos] + q[pos + 1..] == [q[0]] + (q[1..pos] + q[pos + 1..]);
      assert q[0] != q[pos];
    }
  }

  lemma {:induction false} WithoutAbsent(q: seq<nat>, v: nat)
    requires v !in q
    ensures Without(q, v) == q
  {
    if q != [] {
      assert v !in q[1..];
      WithoutAbsent(q[1..], v);
      assert q == [q[0]] + q[1..];
    }
  }

  /** The buckets after the victim `v` is unlinked from wherever it was and
      pushed at the head of bucket `index`. */
  function Relinked(bks: seq<seq<nat>>, index: nat, v: nat): (r: seq<seq<nat>>)
    ensures |r| == |bks|
    ensures index < |bks| ==> |r[index]| >= 1 && r[index][0] == v
    ensures forall b :: 0 <= b < |bks| && b != index ==> v !in r[b]
  {
    seq(|bks|, b requires 0 <= b < |bks| =>
      if b == index then [v] + Without(bks[b], v) else Without(bks[b], v))
  }

  /** The state `bget(dev, blockno)` leaves behind at time `ticks`, and what it
      returns. A hit bumps the first matching slot of the home bucket; a miss
      re-tags the victim and moves it to the head of the home bucket; with no
      victim the kernel panics and nothing changes. */
  ghost function Get(c: Cache, dev: uint, blockno: uint, ticks: uint): (r: (Outcome, Cache))
    requires Wf(c)
    ensures |r.1.bufs| == |c.bufs| && |r.1.bks| == |c.bks|
    ensures r.0.Got? ==> r.0.slot < |c.bufs|
    ensures r.0.Panic? ==> r.1 == c
  {
    var index := blockno % |c.bks|;
    match Cached(c, dev, blockno)
    case Some(s) =>
      (Got(s), c.(bufs := c.bufs[s := c.bufs[s].(refcnt := c.bufs[s].refcnt + 1, lastused := ticks)]))
    case None =>
      match Victim(c.bufs, c.bks, index)
      case None => (Panic("bget: no buffers"), c)
      case Some(v) =>
        VictimSpec(c.bufs, c.bks, index);
        (Got(v), Cache(c.bufs[v := Buf(dev, blockno, false, 1, ticks)], Relinked(c.bks, index, v)))
  }

  /** After the victim `v` is re-tagged as `nb` and relinked at the head of
      bucket `index`, every listed slot exists and sits in its home bucket. */
  lemma RelinkedHomes(bufs: seq<Buf>, bks: seq<seq<nat>>, index: nat, v: nat, nb: Buf)
    requires Partition(bufs, bks) && v < |bufs| && index == nb.blockno % |bks|
    ensures var bufs', bks' := bufs[v := nb], Relinked(bks, index, v);
            forall b, p :: 0 <= b < |bks'| && 0 <= p < |bks'[b]| ==>
              bks'[b][p] < |bufs'| && bufs'[bks'[b][p]].blockno % |bks'| == b
  {
    var bufs', bks' := bufs[v := nb], Relinked(bks, index, v);
    forall b, p | 0 <= b < |bks'| && 0 <= p < |bks'[b]|
      ensures bks'[b][p] < |bufs'| && bufs'[bks'[b][p]].blockno % |bks'| == b
    {
      var x := bks'[b][p];
      if !(b == index && p == 0) {
        assert x in Without(bks[b], v) by {
          if b == index {
            assert x == Without(bks[b], v)[p - 1];
          }
        }
        var q :| 0 <= q < |bks[b]| && bks[b][q] == x;
      }
    }
  }

  /** The relinked buckets are still free of duplicates. */
  lemma RelinkedDistinct(bks: seq<seq<nat>>, index: nat, v: nat)
    requires forall b :: 0 <= b < |bks| ==> Distinct(bks[b])
    ensures var bks' := Relinked(bks, index, v);
            forall b :: 0 <= b < |bks'| ==> Distinct(bks'[b])
  {
    var bks' := Relinked(bks, index, v);
    forall b | 0 <= b < |bks'| ensures Distinct(bks'[b]) {
      if b == index {
        var w := Without(bks[b], v);
        forall p, r | 0 <= p < r < |[v] + w| ensures ([v] + w)[p] != ([v] + w)[r] {
          if p == 0 {
            assert ([v] + w)[r] == w[r - 1];
            assert w[r - 1] in w;
          } else {
            assert ([v] + w)[p] == w[p - 1] && ([v] + w)[r] == w[r - 1];
          }
        }
      }
    }
  }

  /** Every slot, the re-tagged victim included, is listed in its new home bucket. */
  lemma RelinkedCovers(bufs: seq<Buf>, bks: seq<seq<nat>>, index: nat, v: nat, nb: Buf)
    requires Partition(bufs, bks) && v < |bufs| && index == nb.blockno % |bks|
    ensures var bufs', bks' := bufs[v := nb], Relinked(bks, index, v);
            forall s :: 0 <= s < |bufs'| ==> s in bks'[bufs'[s].blockno % |bks'|]
  {
    var bufs', bks' := bufs[v := nb], Relinked(bks, index, v);
    forall s | 0 <= s < |bufs'| ensures s in bks'[bufs'[s].blockno % |bks'|] {
      if s == v {
        assert bks'[index][0] == v;
      } else {
        var home := bufs[s].blockno % |bks|;
        assert s in Without(bks[home], v);
        if home == index {
          assert bks'[home] == [v] + Without(bks[home], v);
        }
      }
    }
  }

  /** `bget` keeps the bucket invariant, and with it the pool size. */
  lemma GetKeepsPartition(c: Cache, dev: uint, blockno: uint, ticks: uint)
    requires Wf(c)
    ensures Wf(Get(c, dev, blockno, ticks).1)
    ensures Total(Get(c, dev, blockno, ticks).1.bks) == |c.bufs|
    ensures |Get(c, dev, blockno, ticks).1.bufs| == |c.bufs|
  {
    var c' := Get(c, dev, blockno, ticks).1;
    var index := blockno % |c.bks|;
    if Cached(c, dev, blockno).None? && Victim(c.bufs, c.bks, index).Some? {
      var v := Victim(c.bufs, c.bks, index).value;
      var nb := Buf(dev, blockno, false, 1, ticks);
      assert c' == Cache(c.bufs[v := nb], Relinked(c.bks, index, v));
      RelinkedHomes(c.bufs, c.bks, index, v, nb);
      RelinkedDistinct(c.bks, index, v);
      RelinkedCovers(c.bufs, c.bks, index, v, nb);
    }
    PoolSize(c'.bufs, c'.bks);
  }

  /** The hit path: the first slot of the home bucket tagged `(dev, blockno)`
      gains exactly one reference and `lastused = ticks`; no other slot and no
      list changes. */
  lemma GetHit(c: Cache, dev: uint, blockno: uint, ticks: uint)
    requires Wf(c) && Cached(c, dev, blockno).Some?
    ensures var s := Cached(c, dev, blockno).value;
            var (r, c') := Get(c, dev, blockno, ticks);
            && r == Got(s)
            && c'.bks == c.bks
            && c'.bufs[s] == c.bufs[s].(refcnt := c.bufs[s].refcnt + 1, lastused := ticks)
            && forall t :: 0 <= t < |c.bufs| && t != s ==> c'.bufs[t] == c.bufs[t]
  {
  }

  /** The miss path: the victim was free, now carries `(dev, blockno)`, is
      invalid, has one reference and `lastused = ticks`, heads its home bucket
      and appears in no other bucket; a slot that was referenced keeps its
      identity, and every other slot is untouched. */
  lemma GetMiss(c: Cache, dev: uint, blockno: uint, ticks: uint)
    requires Wf(c) && Cached(c, dev, blockno).None?
    requires Victim(c.bufs, c.bks, blockno % |c.bks|).Some?
    ensures var v := Victim(c.bufs, c.bks, blockno % |c.bks|).value;
            var index := blockno % |c.bks|;
            var (r, c') := Get(c, dev, blockno, ticks);
            && r == Got(v)
            && c.bufs[v].refcnt == 0
            && c'.bufs[v] == Buf(dev, blockno, false, 1, ticks)
            && c'.bks[index][0] == v
            && (forall b :: 0 <= b < |c.bks| && b != index ==> v !in c'.bks[b])
            && (forall t :: 0 <= t < |c.bufs| && c.bufs[t].refcnt > 0 ==> c'.bufs[t] == c.bufs[t])
            && (forall t :: 0 <= t < |c.bufs| && t != v ==> c'.bufs[t] == c.bufs[t])
  {
    VictimSpec(c.bufs, c.bks, blockno % |c.bks|);
  }

  /** Either path returns a slot tagged with the requested block; the panic
      happens exactly when the block is absent and no slot is a candidate. */
  lemma GetReturnsTagged(c: Cache, dev: uint, blockno: uint, ticks: uint)
    requires Wf(c)
    ensures var (r, c') := Get(c, dev, blockno, ticks);
            && (r.Got? ==> r.slot < |c'.bufs| && Tagged(c'.bufs[r.slot], dev, blockno) && c'.bufs[r.slot].refcnt >= 1)
            && (r.Panic? <==> (forall s :: 0 <= s < |c.bufs| ==> !Tagged(c.bufs[s], dev, blockno) && !Candidate(c.bufs[s])))
  {
    VictimSpec(c.bufs, c.bks, blockno % |c.bks|);
    CachedMissMeansAbsent(c, dev, blockno);
  }

  /** The slot `bget` returns is already valid exactly when the lookup hit a
      valid slot; a freshly re-tagged slot is always invalid. */
  lemma GetValid(c: Cache, dev: uint, blockno: uint, ticks: uint)
    requires Wf(c)
    ensures var (r, c') := Get(c, dev, blockno, ticks);
            r.Got? ==> (r.slot < |c'.bufs| &&
                        (c'.bufs[r.slot].valid <==> Cached(c, dev, blockno).Some? && c.bufs[r.slot].valid))
  {
    VictimSpec(c.bufs, c.bks, blockno % |c.bks|);
  }

  /** Unlinking the victim at its position in its bucket and pushing it at
      the head of bucket `index`, as the pointer updates at kernel/bio.c:158-164
      do, yields `Relinked`: the victim is listed nowhere else. */
  lemma RelinkAt(bufs: seq<Buf>, bks: seq<seq<nat>>, index: nat, lb: nat, pos: nat)
    requires Partition(bufs, bks) && index < |bks| && lb < |bks| && pos < |bks[lb]|
    ensures var v := bks[lb][pos];
            var unlinked := bks[lb := bks[lb][..pos] + bks[lb][pos + 1..]];
            Relinked(bks, index, bks[lb][pos]) == unlinked[index := [v] + unlinked[index]]
  {
    var v := bks[lb][pos];
    ExactlyOneBucket(bufs, bks, v);
    UnlinkAt(bks[lb], pos);
    forall b | 0 <= b < |bks| && b != lb
      ensures Without(bks[b], v) == bks[b]
    {
      WithoutAbsent(bks[b], v);
    }
  }

  // ---------------------------------------------------------------------
  // binit (kernel/bio.c:42-65)

  /** `n - 1, n - 2, ..., 0`: bucket 0 after `binit` pushed slots `0 .. n-1`
      one by one at its head. */
  function Countdown(n: nat): (r: seq<nat>)
    ensures |r| == n && forall p :: 0 <= p < n ==> r[p] == n - 1 - p
  {
    if n == 0 then [] else [n - 1] + Countdown(n - 1)
  }

  /** The cache `binit` leaves behind: every slot zeroed (tag `(0, 0)`, not
      valid, no references, `lastused` 0), all of them listed in bucket 0,
      every other bucket empty. */
  function Initial(nbuf: nat, hashnum: nat): (r: Cache)
    ensures |r.bufs| == nbuf && |r.bks| == hashnum
  {
    Cache(seq(nbuf, _ => Buf(0, 0, false, 0, 0)),
          seq(hashnum, b => if b == 0 then Countdown(nbuf) else []))
  }

  /** The slots and buckets `binit` leaves behind, described slot by slot
      and bucket by bucket, are the cache `Initial`. */
  lemma InitialShape(bufs: seq<Buf>, bks: seq<seq<nat>>, nbuf: nat, hashnum: nat)
    requires |bufs| == nbuf && |bks| == hashnum >= 1
    requires forall s :: 0 <= s < nbuf ==> bufs[s] == Buf(0, 0, false, 0, 0)
    requires bks[0] == Countdown(nbuf)
    requires forall i :: 1 <= i < hashnum ==> bks[i] == []
    ensures Cache(bufs, bks) == Initial(nbuf, hashnum)
  {
  }

  /** `binit` establishes the bucket invariant (tag 0 has home bucket 0) and
      lists every one of the `nbuf` slots exactly once. */
  lemma InitialWf(nbuf: nat, hashnum: nat)
    requires hashnum >= 1
    ensures Wf(Initial(nbuf, hashnum))
    ensures Total(Initial(nbuf, hashnum).bks) == nbuf
    ensures forall s :: 0 <= s < nbuf ==> s in Initial(nbuf, hashnum).bks[0]
  {
    var c := Initial(nbuf, hashnum);
    var q := Countdown(nbuf);
    assert c.bks[0] == q;
    forall s | 0 <= s < nbuf ensures s in c.bks[0] && c.bufs[s].blockno % hashnum == 0 {
      assert q[nbuf - 1 - s] == s;
    }
    forall b, p | 0 <= b < hashnum && 0 <= p < |c.bks[b]|
      ensures c.bks[b][p] < nbuf && c.bufs[c.bks[b][p]].blockno % hashnum == b
    {
      assert b == 0;
    }
    forall b | 0 <= b < hashnum ensures Distinct(c.bks[b]) {
    }
    PoolSize(c.bufs, c.bks);
  }

  // ---------------------------------------------------------------------
  // bread, brelse, bpin, bunpin (kernel/bio.c:174-226)

  /** `bread`: `bget`, then the returned slot is marked valid (after the
      device filled it, when it was not valid already). */
  ghost function Read(c: Cache, dev: uint, blockno: uint, ticks: uint): (r: (Outcome, Cache))
    requires Wf(c)
    ensures r.0 == Get(c, dev, blockno, ticks).0
    ensures r.1.bks == Get(c, dev, blockno, ticks).1.bks
  {
    var (r, c') := Get(c, dev, blockno, ticks);
    if r.Got? && r.slot < |c'.bufs|
    then (r, c'.(bufs := c'.bufs[r.slot := c'.bufs[r.slot].(valid := true)]))
    else (r, c')
  }

  /** Whether `bread` calls the device: the slot `bget` returned is not valid. */
  ghost predicate Fetches(c: Cache, dev: uint, blockno: uint, ticks: uint)
    requires Wf(c)
  {
    var (r, c') := Get(c, dev, blockno, ticks);
    r.Got? && r.slot < |c'.bufs| && !c'.bufs[r.slot].valid
  }

  /** `bread` returns a valid slot tagged with the requested block, keeps
      the bucket invariant, and panics only when `bget` does, changing nothing. */
  lemma ReadReturnsValid(c: Cache, dev: uint, blockno: uint, ticks: uint)
    requires Wf(c)
    ensures var (r, c') := Read(c, dev, blockno, ticks);
            && Wf(c')
            && (r.Got? ==> r.slot < |c'.bufs| && Tagged(c'.bufs[r.slot], dev, blockno) && c'.bufs[r.slot].valid)
            && (r.Panic? ==> c' == c)
  {
    GetReturnsTagged(c, dev, blockno, ticks);
    GetKeepsPartition(c, dev, blockno, ticks);
    var (r, c') := Get(c, dev, blockno, ticks);
    if r.Got? {
      SameHomesKeepPartition(c', Read(c, dev, blockno, ticks).1);
    }
  }

  /** `bread` reads the device exactly when the block was not already cached
      in a valid slot. */
  lemma FetchesIff(c: Cache, dev: uint, blockno: uint, ticks: uint)
    requires Wf(c)
    ensures Fetches(c, dev, blockno, ticks) <==>
              Get(c, dev, blockno, ticks).0.Got?
              && !(Cached(c, dev, blockno).Some? && c.bufs[Cached(c, dev, blockno).value].valid)
  {
    GetValid(c, dev, blockno, ticks);
    if Cached(c, dev, blockno).Some? {
      GetHit(c, dev, blockno, ticks);
    }
  }

  /** Changing slot fields other than the tag keeps the bucket invariant. */
  lemma SameHomesKeepPartition(c: Cache, c': Cache)
    requires Wf(c) && c'.bks == c.bks && |c'.bufs| == |c.bufs|
    requires forall s :: 0 <= s < |c.bufs| ==> c'.bufs[s].blockno == c.bufs[s].blockno
    ensures Wf(c')
  {
  }

  /** `bpin`: one more reference to slot `b`. */
  function Pin(c: Cache, b: nat): (r: Cache)
    requires b < |c.bufs|
    ensures Wf(c) ==> Wf(r)
  {
    var r := c.(bufs := c.bufs[b := c.bufs[b].(refcnt := c.bufs[b].refcnt + 1)]);
    assert Wf(c) ==> Wf(r) by {
      if Wf(c) {
        SameHomesKeepPartition(c, r);
      }
    }
    r
  }

  /** `bunpin`, and `brelse` once its lock check passed: one reference fewer. */
  function Unpin(c: Cache, b: nat): (r: Cache)
    requires b < |c.bufs| && c.bufs[b].refcnt > 0
    ensures Wf(c) ==> Wf(r)
  {
    var r := c.(bufs := c.bufs[b := c.bufs[b].(refcnt := c.bufs[b].refcnt - 1)]);
    assert Wf(c) ==> Wf(r) by {
      if Wf(c) {
        SameHomesKeepPartition(c, r);
      }
    }
    r
  }

  /** `bunpin` undoes `bpin`, and the other way round. */
  lemma PinUnpin(c: Cache, b: nat)
    requires b < |c.bufs|
    ensures Unpin(Pin(c, b), b) == c
    ensures c.bufs[b].refcnt > 0 ==> Pin(Unpin(c, b), b) == c
  {
  }

  datatype Option<T> = None | Some(value: T)
}
