/** The buffer cache of kernel/bio.c as a sequential object: the `bcache`
    structure with its slot array and its hash buckets, each bucket a list
    of slot numbers, head first. Every method is proved against the value
    model in module BCache. */
module Bio {
  import opened BCache

  /** How `bwrite` and `brelse` end: normally, or in a kernel panic. */
  datatype Status = Done | Halted(msg: string)

  class BufferCache {
    /** `NBUF` and `HASHNUM`. */
    const nbuf: nat
    const hashnum: nat
    /** `bcache.buf`. */
    const buf: array<Buf>
    /** `bcache.hashing`: the slots each bucket links, from `head.next` on. */
    const hashing: array<seq<nat>>
    /** Whether the caller holds the sleep-lock of each slot. */
    const locked: array<bool>
    /** Calls of `virtio_disk_rw` that read and that write a block. */
    ghost var diskReads: nat
    ghost var diskWrites: nat

    ghost predicate Valid()
      reads this, buf, hashing
    {
      && hashnum >= 1
      && buf.Length == nbuf && hashing.Length == hashnum && locked.Length == nbuf
      && Partition(buf[..], hashing[..])
    }

    /** The cache as a value. */
    ghost function State(): Cache
      reads this, buf, hashing
    {
      Cache(buf[..], hashing[..])
    }

    /** `binit`: every bucket empty, then each slot pushed at the head of
        bucket 0. The slots keep their static zero initialisation. */
    constructor Init(nbuf: nat, hashnum: nat)
      requires hashnum >= 1
      ensures Valid() && fresh(buf) && fresh(hashing) && fresh(locked)
      ensures this.nbuf == nbuf && this.hashnum == hashnum
      ensures State() == Initial(nbuf, hashnum)
      ensures forall s :: 0 <= s < nbuf ==> !locked[s]
      ensures diskReads == 0 && diskWrites == 0
    {
      this.nbuf := nbuf;
      this.hashnum := hashnum;
      buf := new Buf[nbuf](_ => Buf(0, 0, false, 0, 0));
      hashing := new seq<nat>[hashnum](_ => []);
      locked := new bool[nbuf](_ => false);
      new;
      LinkAll();
      InitialShape(buf[..], hashing[..], nbuf, hashnum);
      InitialWf(nbuf, hashnum);
      diskReads, diskWrites := 0, 0;
    }

    /** The second loop of `binit` (kernel/bio.c:55-64): push every slot at
        the head of bucket 0 and clear its reference count. */
    method LinkAll()
      requires buf.Length == nbuf && hashing.Length == hashnum >= 1
      requires forall s :: 0 <= s < nbuf ==> buf[s] == Buf(0, 0, false, 0, 0)
      requires forall i :: 0 <= i < hashnum ==> hashing[i] == []
      modifies buf, hashing
      ensures hashing[0] == Countdown(nbuf)
      ensures forall i :: 1 <= i < hashnum ==> hashing[i] == []
      ensures forall s :: 0 <= s < nbuf ==> buf[s] == Buf(0, 0, false, 0, 0)
    {
      var b := 0;
      while b < nbuf
        invariant 0 <= b <= nbuf
        invariant hashing[0] == Countdown(b)
        invariant forall i :: 1 <= i < hashnum ==> hashing[i] == []
        invariant forall s :: 0 <= s < nbuf ==> buf[s] == Buf(0, 0, false, 0, 0)
        modifies buf, hashing
      {
        hashing[0] := [b] + hashing[0];
        buf[b] := buf[b].(refcnt := 0);
        b := b + 1;
      }
    }

    /** `bget`: look the block up in its home bucket; on a miss evict the
        victim of the scan. The caller then holds the returned slot's
        sleep-lock. */
    method Bget(dev: uint, blockno: uint, ticks: uint) returns (r: Outcome)
      requires Valid()
      modifies buf, hashing, locked
      ensures Valid()
      ensures (r, State()) == Get(old(State()), dev, blockno, ticks)
      ensures r.Got? ==> r.slot < nbuf && locked[..] == old(locked[..])[r.slot := true]
      ensures r.Panic? ==> locked[..] == old(locked[..])
    {
      var index := blockno % hashnum;
      assert Bounded(hashing[index], nbuf);
      var hit := LookupHome(buf[..], hashing[index], dev, blockno);
      if hit.None? {
        r := Evict(dev, blockno, ticks);
        return;
      }
      ghost var c := State();
      GetKeepsPartition(c, dev, blockno, ticks);
      var s := hashing[index][hit.value];
      buf[s] := buf[s].(refcnt := buf[s].refcnt + 1, lastused := ticks);
      locked[s] := true;
      r := Got(s);
    }

    /** The miss path of `bget` (kernel/bio.c:90-171): find the victim,
        re-tag it, unlink it and push it at the head of the home bucket. */
    method Evict(dev: uint, blockno: uint, ticks: uint) returns (r: Outcome)
      requires Valid() && Cached(State(), dev, blockno).None?
      modifies buf, hashing, locked
      ensures Valid()
      ensures (r, State()) == Get(old(State()), dev, blockno, ticks)
      ensures r.Got? ==> r.slot < nbuf && locked[..] == old(locked[..])[r.slot := true]
      ensures r.Panic? ==> locked[..] == old(locked[..])
    {
      ghost var c := State();
      GetKeepsPartition(c, dev, blockno, ticks);
      var index := blockno % hashnum;
      var scan := FindVictim(buf[..], hashing[..], index);
      if !scan.finded {
        return Panic("bget: no buffers");
      }
      var lb, pos := scan.lruBucket, scan.evictPos;
      var v := hashing[lb][pos];
      RelinkAt(buf[..], hashing[..], index, lb, pos);
      buf[v] := Buf(dev, blockno, false, 1, ticks);
      hashing[lb] := hashing[lb][..pos] + hashing[lb][pos + 1..];
      hashing[index] := [v] + hashing[index];
      locked[v] := true;
      r := Got(v);
    }

    /** `bread`: `bget`, then a device read when the slot is not valid. */
    method Bread(dev: uint, blockno: uint, ticks: uint) returns (r: Outcome)
      requires Valid()
      modifies this, buf, hashing, locked
      ensures Valid()
      ensures (r, State()) == Read(old(State()), dev, blockno, ticks)
      ensures diskReads == old(diskReads) + (if Fetches(old(State()), dev, blockno, ticks) then 1 else 0)
      ensures diskWrites == old(diskWrites)
      ensures r.Got? ==> r.slot < nbuf && locked[..] == old(locked[..])[r.slot := true]
      ensures r.Panic? ==> locked[..] == old(locked[..])
    {
      ghost var c := State();
      ReadReturnsValid(c, dev, blockno, ticks);
      r := Bget(dev, blockno, ticks);
      ghost var c' := State();
      assert (r, c') == Get(c, dev, blockno, ticks);
      if r.Got? && !buf[r.slot].valid {
        // virtio_disk_rw(b, 0)
        diskReads := diskReads + 1;
        buf[r.slot] := buf[r.slot].(valid := true);
      }
      assert r.Got? ==> buf[..] == c'.bufs[r.slot := c'.bufs[r.slot].(valid := true)];
    }

    /** `bwrite`: panics unless the caller holds the slot's sleep-lock. */
    method Bwrite(b: nat) returns (st: Status)
      requires Valid() && b < nbuf
      modifies this
      ensures st == (if locked[b] then Done else Halted("bwrite"))
      ensures diskWrites == old(diskWrites) + (if locked[b] then 1 else 0)
      ensures diskReads == old(diskReads)
    {
      if !locked[b] {
        return Halted("bwrite");
      }
      // virtio_disk_rw(b, 1)
      diskWrites := diskWrites + 1;
      st := Done;
    }

    /** `brelse`: panics unless the caller holds the slot's sleep-lock;
        otherwise releases it and drops one reference. No list changes. */
    method Brelse(b: nat) returns (st: Status)
      requires Valid() && b < nbuf
      requires locked[b] ==> buf[b].refcnt > 0
      modifies buf, locked
      ensures Valid()
      ensures old(locked[b]) ==> st == Done && State() == Unpin(old(State()), b)
                                 && locked[..] == old(locked[..])[b := false]
      ensures !old(locked[b]) ==> st == Halted("brelse") && State() == old(State())
                                  && locked[..] == old(locked[..])
    {
      if !locked[b] {
        return Halted("brelse");
      }
      locked[b] := false;
      buf[b] := buf[b].(refcnt := buf[b].refcnt - 1);
      st := Done;
    }

    /** `bpin`: one more reference to slot `b`. */
    method Bpin(b: nat)
      requires Valid() && b < nbuf
      modifies buf
      ensures Valid()
      ensures State() == Pin(old(State()), b)
    {
      buf[b] := buf[b].(refcnt := buf[b].refcnt + 1);
    }

    /** `bunpin`: one reference fewer to slot `b`. */
    method Bunpin(b: nat)
      requires Valid() && b < nbuf && buf[b].refcnt > 0
      modifies buf
      ensures Valid()
      ensures State() == Unpin(old(State()), b)
    {
      buf[b] := buf[b].(refcnt := buf[b].refcnt - 1);
    }
  }

  /** Pinning a slot and unpinning it again leaves the cache as it was. */
  method PinThenUnpin(cache: BufferCache, b: nat)
    requires cache.Valid() && b < cache.nbuf
    modifies cache.buf
    ensures cache.Valid() && cache.State() == old(cache.State())
  {
    cache.Bpin(b);
    cache.Bunpin(b);
    PinUnpin(old(cache.State()), b);
  }
}
