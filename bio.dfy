/**
 * The block buffer cache of kernel/bio.c, with the buffer record of kernel/buf.h.
 *
 * The pool `bcache.buf[NBUF]` is an array of `Buf` records indexed by slot number.
 * The 13 bucket lists `bcache.bufmap[i]` are intrusive singly linked lists headed by a
 * sentinel; each is modelled as the sequence of slot numbers it links, head first, so
 * that "unlink the node after `before_least`" is "remove the element at a position" and
 * "push onto the front" is prepending.
 *
 * The first half of the module is the value-level specification (a `Cache` snapshot and
 * the functions `Bget` and `Bread` that say what a call does to it); the second half is
 * the class `BCache`, whose methods run the source's loops over the arrays and are proved
 * to perform exactly those transitions.
 */
module BufCache {
  import opened Wrappers
  import opened Lists

  /** NBUFMAP_BUCKET: the number of hash buckets. */
  const NBUCKET: nat := 13

  /** Bytes in a block (BSIZE); only used for the content of a never-written disk block. */
  const BSIZE: nat := 1024

  /** C `uint`: 32-bit unsigned. */
  newtype u32 = x: int | 0 <= x < 0x1_0000_0000

  type Block = seq<bv8>

  /** One pool slot (struct buf). The sleeplock is the ghost set `BCache.holding`. */
  datatype Buf = Buf(valid: bool, dev: u32, blockno: u32, refcnt: nat, lastuse: u32, data: Block)
  {
    /** The slot is bound to block `blockno` of device `dev`. */
    predicate Holds(d: u32, b: u32) {
      dev == d && blockno == b
    }
  }

  /** A disk address. */
  datatype BlockId = BlockId(dev: u32, blockno: u32)

  /** The content of a zero-initialised buffer or of a never-written disk block. */
  function ZeroBlock(): Block {
    seq(BSIZE, _ => 0)
  }

  /** The block device: what a read of `id` returns. */
  function DiskRead(disk: map<BlockId, Block>, id: BlockId): Block {
    if id in disk then disk[id] else ZeroBlock()
  }

  /** Bitwise OR of two naturals, bit by bit from the least significant end. */
  function BitOr(a: nat, b: nat): (r: nat)
    ensures a == 0 ==> r == b
    ensures b == 0 ==> r == a
  {
    if a == 0 then b
    else if b == 0 then a
    else 2 * BitOr(a / 2, b / 2) + (if a % 2 == 1 || b % 2 == 1 then 1 else 0)
  }

  /** BUFMAP_HASH: ((dev << 27) | blockno) % 13 in 32-bit unsigned arithmetic: the shift
      drops every bit of dev above the fifth. */
  function Hash(dev: u32, blockno: u32): (h: nat)
    ensures h < NBUCKET
  {
    BitOr((dev as int * 0x800_0000) % 0x1_0000_0000, blockno as int) % NBUCKET
  }

  /** The shift by 27 keeps only the five low bits of dev: devices that agree on them share
      every bucket index. */
  lemma HashUsesLowDevBits(dev: u32, blockno: u32)
    ensures Hash(dev, blockno) == Hash(dev % 32, blockno)
  {
    var q, r := dev as int / 32, dev as int % 32;
    assert dev as int * 0x800_0000 == q * 0x1_0000_0000 + r * 0x800_0000;
    assert (dev as int * 0x800_0000) % 0x1_0000_0000 == r * 0x800_0000;
  }

  // ---------------------------------------------------------------------------------
  // Cache snapshots and their invariant
  // ---------------------------------------------------------------------------------

  /** The state of bcache as values: the bucket lists (head first) and the slot records. */
  datatype Cache = Cache(bufmap: seq<seq<nat>>, buf: seq<Buf>)

  /** Every list entry names a slot of a pool of `n` slots. */
  ghost predicate Shaped(bs: seq<seq<nat>>, n: nat) {
    forall i, p :: 0 <= i < |bs| && 0 <= p < |bs[i]| ==> bs[i][p] < n
  }

  /** The slot numbers 0 .. n-1, each once. */
  function Slots(n: nat): multiset<nat> {
    if n == 0 then multiset{} else Slots(n - 1) + multiset{n - 1}
  }

  /** Two distinct slots share a key only when both still carry the key (0, 0) that the
      zero-initialised pool starts with. */
  ghost predicate UniqueKeys(slots: seq<Buf>) {
    forall s, t :: 0 <= s < |slots| && 0 <= t < |slots| && s != t && slots[s].Holds(slots[t].dev, slots[t].blockno) ==>
      slots[s].dev == 0 && slots[s].blockno == 0
  }

  /** The cache invariant: 13 buckets; every slot sits in exactly one bucket, exactly once;
      every slot sits in the bucket its key hashes to; keys are unique apart from the initial one. */
  ghost predicate Inv(c: Cache) {
    && |c.bufmap| == NBUCKET
    && Shaped(c.bufmap, |c.buf|)
    && multiset(Flatten(c.bufmap)) == Slots(|c.buf|)
    && (forall i, p :: 0 <= i < |c.bufmap| && 0 <= p < |c.bufmap[i]| ==>
          Hash(c.buf[c.bufmap[i][p]].dev, c.buf[c.bufmap[i][p]].blockno) == i)
    && UniqueKeys(c.buf)
  }

  // ---------------------------------------------------------------------------------
  // Lookup, victim scan, relocation
  // ---------------------------------------------------------------------------------

  /** Position of the first slot of list `l` bound to (dev, blockno), or |l| when there is none. */
  function FirstIndex(l: seq<nat>, slots: seq<Buf>, dev: u32, blockno: u32): (k: nat)
    requires forall p :: 0 <= p < |l| ==> l[p] < |slots|
    ensures k <= |l|
    ensures forall q :: 0 <= q < k ==> !slots[l[q]].Holds(dev, blockno)
    ensures k < |l| ==> slots[l[k]].Holds(dev, blockno)
  {
    if |l| == 0 then 0
    else if slots[l[0]].Holds(dev, blockno) then 0
    else 1 + FirstIndex(l[1..], slots, dev, blockno)
  }

  /** Position (i, p) exists and holds a slot with refcnt == 0. */
  predicate FreeAt(bs: seq<seq<nat>>, slots: seq<Buf>, i: int, p: int) {
    0 <= i < |bs| && 0 <= p < |bs[i]| && bs[i][p] < |slots| && slots[bs[i][p]].refcnt == 0
  }

  /** The scan order: buckets in ascending order, each list from its head. */
  predicate Before(j: int, q: int, i: int, p: int) {
    j < i || (j == i && q < p)
  }

  /** Among the free positions before (i, p), (vi, vp) has the least lastuse and every
      earlier free position has a strictly larger one: it is what a scan with a strict `<`
      holds when it reaches (i, p). */
  ghost predicate BestBefore(bs: seq<seq<nat>>, slots: seq<Buf>, i: int, p: int, vi: int, vp: int) {
    && FreeAt(bs, slots, vi, vp)
    && Before(vi, vp, i, p)
    && (forall j, q :: FreeAt(bs, slots, j, q) && Before(j, q, i, p) ==>
          slots[bs[vi][vp]].lastuse <= slots[bs[j][q]].lastuse)
    && (forall j, q :: FreeAt(bs, slots, j, q) && Before(j, q, vi, vp) ==>
          slots[bs[vi][vp]].lastuse < slots[bs[j][q]].lastuse)
  }

  /** No free position comes before (i, p). */
  ghost predicate NoneFreeBefore(bs: seq<seq<nat>>, slots: seq<Buf>, i: int, p: int) {
    forall j, q :: FreeAt(bs, slots, j, q) ==> !Before(j, q, i, p)
  }

  /** (vi, vp) is the eviction victim: the least recently released free slot, ties going
      to the lower bucket and then to the earlier list position. */
  ghost predicate IsVictim(bs: seq<seq<nat>>, slots: seq<Buf>, vi: int, vp: int) {
    BestBefore(bs, slots, |bs|, 0, vi, vp)
  }

  /** No slot in any bucket has refcnt == 0. */
  ghost predicate NoFree(bs: seq<seq<nat>>, slots: seq<Buf>) {
    forall j, q :: !FreeAt(bs, slots, j, q)
  }

  /** The test of the victim scan: position (i, p) replaces the current candidate. */
  predicate Better(bs: seq<seq<nat>>, slots: seq<Buf>, i: nat, p: nat, best: Option<(nat, nat)>)
    requires i < |bs| && p < |bs[i]| && bs[i][p] < |slots|
    requires best.Some? ==> FreeAt(bs, slots, best.value.0, best.value.1)
  {
    slots[bs[i][p]].refcnt == 0 &&
    (best.None? || slots[bs[i][p]].lastuse < slots[bs[best.value.0][best.value.1]].lastuse)
  }

  /** The victim scan from position (i, p) on, holding candidate `best`. */
  function ScanFrom(bs: seq<seq<nat>>, slots: seq<Buf>, i: nat, p: nat, best: Option<(nat, nat)>): (r: Option<(nat, nat)>)
    requires Shaped(bs, |slots|) && i <= |bs| && (i < |bs| ==> p <= |bs[i]|)
    requires best.Some? ==> FreeAt(bs, slots, best.value.0, best.value.1)
    ensures r.Some? ==> FreeAt(bs, slots, r.value.0, r.value.1)
    ensures best.Some? ==> r.Some?
    decreases |bs| - i, if i < |bs| then |bs[i]| - p else 0
  {
    if i == |bs| then best
    else if p == |bs[i]| then ScanFrom(bs, slots, i + 1, 0, best)
    else ScanFrom(bs, slots, i, p + 1, if Better(bs, slots, i, p, best) then Some((i, p)) else best)
  }

  /** The position the scan of every bucket chooses, or None when no slot is free. */
  function Victim(bs: seq<seq<nat>>, slots: seq<Buf>): (r: Option<(nat, nat)>)
    requires Shaped(bs, |slots|)
  {
    ScanFrom(bs, slots, 0, 0, None)
  }

  /** The bucket lists after the slot at position p of bucket i is made a member of bucket h:
      unlinked and pushed onto the front of h when i != h, left in place otherwise. */
  function Relocate(bs: seq<seq<nat>>, i: nat, p: nat, h: nat): (r: seq<seq<nat>>)
    requires i < |bs| && p < |bs[i]| && h < |bs|
  {
    if i == h then bs
    else bs[i := bs[i][..p] + bs[i][p + 1..]][h := [bs[i][p]] + bs[h]]
  }

  /** The victim's record once bound to (dev, blockno): refcnt 1, not valid; lastuse and the
      stale payload are left as they were. */
  function Rebind(b: Buf, dev: u32, blockno: u32): Buf {
    b.(dev := dev, blockno := blockno, refcnt := 1, valid := false)
  }

  /** bget(dev, blockno) on a snapshot: the slot returned and the new cache, or None for the
      panic "bget: no buffers". */
  function Bget(c: Cache, dev: u32, blockno: u32): (r: Option<(nat, Cache)>)
    requires |c.bufmap| == NBUCKET && Shaped(c.bufmap, |c.buf|)
    ensures r.Some? ==> r.value.0 < |c.buf| && |r.value.1.buf| == |c.buf|
    ensures r.Some? ==> r.value.1.buf[r.value.0].Holds(dev, blockno) && r.value.1.buf[r.value.0].refcnt >= 1
  {
    var h := Hash(dev, blockno);
    var k := FirstIndex(c.bufmap[h], c.buf, dev, blockno);
    if k < |c.bufmap[h]| then
      var v := c.bufmap[h][k];
      Some((v, c.(buf := c.buf[v := c.buf[v].(refcnt := c.buf[v].refcnt + 1)])))
    else
      match Victim(c.bufmap, c.buf)
      case None => None
      case Some(pos) =>
        var v := c.bufmap[pos.0][pos.1];
        Some((v, Cache(Relocate(c.bufmap, pos.0, pos.1, h), c.buf[v := Rebind(c.buf[v], dev, blockno)])))
  }

  /** bread(dev, blockno) on a snapshot: bget, then a disk read exactly when the slot is not
      valid. The third component says whether the disk was read. */
  function Bread(c: Cache, disk: map<BlockId, Block>, dev: u32, blockno: u32): (r: Option<(nat, Cache, bool)>)
    requires |c.bufmap| == NBUCKET && Shaped(c.bufmap, |c.buf|)
    ensures r.Some? ==> r.value.0 < |r.value.1.buf| && r.value.1.buf[r.value.0].valid
    ensures r.Some? && r.value.2 ==> r.value.1.buf[r.value.0].data == DiskRead(disk, BlockId(dev, blockno))
  {
    match Bget(c, dev, blockno)
    case None => None
    case Some(g) =>
      var v := g.0;
      var c1 := g.1;
      if c1.buf[v].valid then Some((v, c1, false))
      else Some((v, c1.(buf := c1.buf[v := c1.buf[v].(data := DiskRead(disk, BlockId(dev, blockno)), valid := true)]), true))
  }

  /** brelse on one record: drop a reference and stamp lastuse when the last one goes.
      The slot keeps its block, its payload and its valid flag, so a later bget still finds it. */
  function Brelse(b: Buf, ticks: u32): (r: Buf)
    requires b.refcnt > 0
    ensures r.Holds(b.dev, b.blockno) && r.valid == b.valid && r.data == b.data
    ensures r.refcnt + 1 == b.refcnt
    ensures r.refcnt == 0 ==> r.lastuse == ticks
    ensures r.refcnt > 0 ==> r.lastuse == b.lastuse
  {
    b.(refcnt := b.refcnt - 1, lastuse := if b.refcnt == 1 then ticks else b.lastuse)
  }

  // ---------------------------------------------------------------------------------
  // Lemmas: the bucket lists partition the pool
  // ---------------------------------------------------------------------------------

  lemma {:induction false} SlotsCount(n: nat, x: nat)
    ensures Slots(n)[x] == if x < n then 1 else 0
  {
    if n > 0 {
      SlotsCount(n - 1, x);
    }
  }

  /** Under the invariant a slot number occurs at one position of one bucket only. */
  lemma PositionsDistinct(c: Cache, i: nat, p: nat, j: nat, q: nat)
    requires Inv(c)
    requires i < |c.bufmap| && p < |c.bufmap[i]| && j < |c.bufmap| && q < |c.bufmap[j]|
    requires c.bufmap[i][p] == c.bufmap[j][q]
    ensures i == j && p == q
  {
    var x := c.bufmap[i][p];
    SlotsCount(|c.buf|, x);
    assert x in c.bufmap[i] && x in c.bufmap[j];
    if i < j {
      FlattenCovers2(c.bufmap, i, j);
    } else if j < i {
      FlattenCovers2(c.bufmap, j, i);
    } else if p < q {
      SeqCount2(c.bufmap[i], p, q);
      FlattenCovers(c.bufmap, i);
    } else if q < p {
      SeqCount2(c.bufmap[i], q, p);
      FlattenCovers(c.bufmap, i);
    }
  }

  /** Under the invariant every slot of the pool sits in some bucket. */
  lemma SlotPosition(c: Cache, s: nat) returns (i: nat, p: nat)
    requires Inv(c) && s < |c.buf|
    ensures i < |c.bufmap| && p < |c.bufmap[i]| && c.bufmap[i][p] == s
  {
    SlotsCount(|c.buf|, s);
    assert s in multiset(Flatten(c.bufmap));
    i, p := FlattenFind(c.bufmap, s);
  }

  /** A change that leaves every key and the lists alone keeps the invariant. */
  lemma SameKeysKeepInv(c: Cache, slots: seq<Buf>)
    requires Inv(c) && |slots| == |c.buf|
    requires forall s :: 0 <= s < |slots| ==> slots[s].dev == c.buf[s].dev && slots[s].blockno == c.buf[s].blockno
    ensures Inv(c.(buf := slots))
  {
    var c' := c.(buf := slots);
    forall s, t | 0 <= s < |slots| && 0 <= t < |slots| && s != t && slots[s].Holds(slots[t].dev, slots[t].blockno)
      ensures slots[s].dev == 0 && slots[s].blockno == 0
    {
      assert c.buf[s].Holds(c.buf[t].dev, c.buf[t].blockno);
    }
  }

  // ---------------------------------------------------------------------------------
  // Lemmas: the victim scan
  // ---------------------------------------------------------------------------------

  lemma {:induction false} ScanFromSpec(bs: seq<seq<nat>>, slots: seq<Buf>, i: nat, p: nat, best: Option<(nat, nat)>)
    requires Shaped(bs, |slots|) && i <= |bs| && (i < |bs| ==> p <= |bs[i]|)
    requires best.Some? ==> BestBefore(bs, slots, i, p, best.value.0, best.value.1)
    requires best.None? ==> NoneFreeBefore(bs, slots, i, p)
    ensures var r := ScanFrom(bs, slots, i, p, best);
      && (r.Some? ==> IsVictim(bs, slots, r.value.0, r.value.1))
      && (r.None? ==> NoFree(bs, slots))
    decreases |bs| - i, if i < |bs| then |bs[i]| - p else 0
  {
    if i == |bs| {
    } else if p == |bs[i]| {
      ScanFromSpec(bs, slots, i + 1, 0, best);
    } else {
      var nb := if Better(bs, slots, i, p, best) then Some((i, p)) else best;
      ScanFromSpec(bs, slots, i, p + 1, nb);
    }
  }

  /** The scan finds the victim exactly when some slot is free. */
  lemma VictimSpec(bs: seq<seq<nat>>, slots: seq<Buf>)
    requires Shaped(bs, |slots|)
    ensures Victim(bs, slots).Some? ==> IsVictim(bs, slots, Victim(bs, slots).value.0, Victim(bs, slots).value.1)
    ensures Victim(bs, slots).None? <==> NoFree(bs, slots)
  {
    ScanFromSpec(bs, slots, 0, 0, None);
  }

  /** The tie-break makes the victim unique. */
  lemma VictimUnique(bs: seq<seq<nat>>, slots: seq<Buf>, vi: int, vp: int, wi: int, wp: int)
    requires IsVictim(bs, slots, vi, vp) && IsVictim(bs, slots, wi, wp)
    ensures vi == wi && vp == wp
  {
  }

  /** Over the whole pool: the victim is free and no free slot was released before it. */
  lemma VictimLeastRecentlyUsed(c: Cache)
    requires Inv(c) && Victim(c.bufmap, c.buf).Some?
    ensures var v := c.bufmap[Victim(c.bufmap, c.buf).value.0][Victim(c.bufmap, c.buf).value.1];
      && c.buf[v].refcnt == 0
      && forall s :: 0 <= s < |c.buf| && c.buf[s].refcnt == 0 ==> c.buf[v].lastuse <= c.buf[s].lastuse
  {
    VictimSpec(c.bufmap, c.buf);
    var pos := Victim(c.bufmap, c.buf).value;
    var v := c.bufmap[pos.0][pos.1];
    forall s | 0 <= s < |c.buf| && c.buf[s].refcnt == 0
      ensures c.buf[v].lastuse <= c.buf[s].lastuse
    {
      var i, p := SlotPosition(c, s);
      assert FreeAt(c.bufmap, c.buf, i, p);
    }
  }

  // ---------------------------------------------------------------------------------
  // Lemmas: relocation
  // ---------------------------------------------------------------------------------

  /** Where an entry of the relocated lists came from: either it is the moved slot at the
      front of bucket h, or it is the entry of the same bucket at position q0. */
  lemma RelocateOrigin(bs: seq<seq<nat>>, i: nat, p: nat, h: nat, j: nat, q: nat) returns (moved: bool, q0: nat)
    requires i < |bs| && p < |bs[i]| && h < |bs| && j < |bs| && q < |Relocate(bs, i, p, h)[j]|
    ensures moved ==> i != h && j == h && q == 0 && Relocate(bs, i, p, h)[j][q] == bs[i][p]
    ensures !moved ==> q0 < |bs[j]| && Relocate(bs, i, p, h)[j][q] == bs[j][q0] && (i != h ==> !(j == i && q0 == p))
  {
    if i == h {
      moved, q0 := false, q;
    } else if j == h {
      moved, q0 := q == 0, if q == 0 then 0 else q - 1;
    } else if j == i {
      moved, q0 := false, if q < p then q else q + 1;
    } else {
      moved, q0 := false, q;
    }
  }

  /** Relocation neither loses nor duplicates a slot. */
  lemma RelocateConserves(bs: seq<seq<nat>>, i: nat, p: nat, h: nat)
    requires i < |bs| && p < |bs[i]| && h < |bs|
    ensures multiset(Flatten(Relocate(bs, i, p, h))) == multiset(Flatten(bs))
    ensures |Flatten(Relocate(bs, i, p, h))| == |Flatten(bs)|
  {
    if i != h {
      var v := bs[i][p];
      var rest := bs[i][..p] + bs[i][p + 1..];
      var bs1 := bs[i := rest];
      assert bs[i] == bs[i][..p] + [v] + bs[i][p + 1..];
      assert multiset(bs[i]) == multiset(rest) + multiset{v};
      FlattenUpdate(bs, i, rest);
      assert bs1[h] == bs[h];
      FlattenUpdate(bs1, h, [v] + bs[h]);
      var r := bs1[h := [v] + bs[h]];
      assert multiset([v] + bs[h]) == multiset{v} + multiset(bs[h]);
      var fb1: multiset<nat>, fb: multiset<nat>, fr: multiset<nat> := multiset(Flatten(bs1)), multiset(Flatten(bs)), multiset(Flatten(r));
      var mv: multiset<nat>, mr: multiset<nat>, mh: multiset<nat> := multiset{v}, multiset(rest), multiset(bs[h]);
      assert fb1 + (mr + mv) == fb + mr;
      assert fr + mh == fb1 + (mv + mh);
      forall x: nat
        ensures fr[x] == fb[x]
      {
        assert (fb1 + (mr + mv))[x] == (fb + mr)[x];
        assert (fr + mh)[x] == (fb1 + (mv + mh))[x];
      }
      assert multiset(Flatten(r)) == multiset(Flatten(bs));
    }
    var r := Relocate(bs, i, p, h);
    assert |multiset(Flatten(r))| == |Flatten(r)|;
    assert |multiset(Flatten(bs))| == |Flatten(bs)|;
  }

  /** An entry of the relocated lists is the moved slot only in bucket h; any other entry
      was an entry of the same bucket before. */
  lemma RelocatedEntry(c: Cache, i: nat, p: nat, h: nat, j: nat, q: nat) returns (q0: nat)
    requires Inv(c) && i < NBUCKET && p < |c.bufmap[i]| && h < NBUCKET && j < NBUCKET
    requires q < |Relocate(c.bufmap, i, p, h)[j]|
    ensures Relocate(c.bufmap, i, p, h)[j][q] == c.bufmap[i][p] ==> j == h
    ensures Relocate(c.bufmap, i, p, h)[j][q] != c.bufmap[i][p] ==>
      q0 < |c.bufmap[j]| && c.bufmap[j][q0] == Relocate(c.bufmap, i, p, h)[j][q]
  {
    var moved, q1 := RelocateOrigin(c.bufmap, i, p, h, j, q);
    q0 := q1;
    if !moved && c.bufmap[j][q1] == c.bufmap[i][p] {
      PositionsDistinct(c, j, q1, i, p);
    }
  }

  /** An entry of a relocated bucket was the moved slot, in bucket h, or an entry of the same bucket before. */
  lemma RelocateMemberFrom(c: Cache, i: nat, p: nat, h: nat, j: nat, x: nat)
    requires Inv(c) && i < NBUCKET && p < |c.bufmap[i]| && h < NBUCKET && j < NBUCKET
    requires x in Relocate(c.bufmap, i, p, h)[j]
    ensures if x == c.bufmap[i][p] then j == h else x in c.bufmap[j]
  {
    var r := Relocate(c.bufmap, i, p, h);
    var q :| 0 <= q < |r[j]| && r[j][q] == x;
    var q0 := RelocatedEntry(c, i, p, h, j, q);
  }

  /** The moved slot is an entry of bucket h after relocation. */
  lemma RelocateMovedIn(bs: seq<seq<nat>>, i: nat, p: nat, h: nat)
    requires i < |bs| && p < |bs[i]| && h < |bs|
    ensures bs[i][p] in Relocate(bs, i, p, h)[h]
  {
    if i == h {
      assert Relocate(bs, i, p, h)[h][p] == bs[i][p];
    } else {
      assert Relocate(bs, i, p, h)[h][0] == bs[i][p];
    }
  }

  /** Every other entry of a bucket stays an entry of that bucket after relocation. */
  lemma RelocateKeeps(bs: seq<seq<nat>>, i: nat, p: nat, h: nat, j: nat, x: nat)
    requires i < |bs| && p < |bs[i]| && h < |bs| && j < |bs|
    requires x != bs[i][p] && x in bs[j]
    ensures x in Relocate(bs, i, p, h)[j]
  {
    var r := Relocate(bs, i, p, h);
    var q0 :| 0 <= q0 < |bs[j]| && bs[j][q0] == x;
    if i == h || (j != i && j != h) {
      assert r[j][q0] == x;
    } else if j == h {
      assert r[j][q0 + 1] == x;
    } else if q0 < p {
      assert r[j][q0] == x;
    } else {
      assert r[j][q0 - 1] == x;
    }
  }

  /** Membership of one slot in one bucket after relocation. */
  lemma RelocateMember(c: Cache, i: nat, p: nat, h: nat, j: nat, x: nat)
    requires Inv(c) && i < NBUCKET && p < |c.bufmap[i]| && h < NBUCKET && j < NBUCKET
    ensures x in Relocate(c.bufmap, i, p, h)[j] <==> if x == c.bufmap[i][p] then j == h else x in c.bufmap[j]
  {
    if x in Relocate(c.bufmap, i, p, h)[j] {
      RelocateMemberFrom(c, i, p, h, j, x);
    }
    if x == c.bufmap[i][p] && j == h {
      RelocateMovedIn(c.bufmap, i, p, h);
    }
    if x != c.bufmap[i][p] && x in c.bufmap[j] {
      RelocateKeeps(c.bufmap, i, p, h, j, x);
    }
  }

  /** After relocation the moved slot is a member of bucket h and of no other bucket, and
      every other slot is a member of exactly the buckets it was a member of before. */
  lemma RelocateMembership(c: Cache, i: nat, p: nat, h: nat)
    requires Inv(c) && i < NBUCKET && p < |c.bufmap[i]| && h < NBUCKET
    ensures forall j, x :: 0 <= j < NBUCKET ==>
      (x in Relocate(c.bufmap, i, p, h)[j] <==> if x == c.bufmap[i][p] then j == h else x in c.bufmap[j])
  {
    forall j, x | 0 <= j < NBUCKET
      ensures x in Relocate(c.bufmap, i, p, h)[j] <==> if x == c.bufmap[i][p] then j == h else x in c.bufmap[j]
    {
      RelocateMember(c, i, p, h, j, x);
    }
  }

  // ---------------------------------------------------------------------------------
  // Lemmas: bget and bread
  // ---------------------------------------------------------------------------------

  /** When the lookup misses, no slot of the pool is bound to the block. */
  lemma NotCached(c: Cache, dev: u32, blockno: u32)
    requires Inv(c)
    requires FirstIndex(c.bufmap[Hash(dev, blockno)], c.buf, dev, blockno) == |c.bufmap[Hash(dev, blockno)]|
    ensures forall s :: 0 <= s < |c.buf| ==> !c.buf[s].Holds(dev, blockno)
  {
    forall s | 0 <= s < |c.buf|
      ensures !c.buf[s].Holds(dev, blockno)
    {
      var i, p := SlotPosition(c, s);
    }
  }

  /** After relocating the victim to the bucket of its new key, every entry names a slot and
      sits in the bucket its key hashes to. */
  lemma RebindHashed(c: Cache, i: nat, p: nat, dev: u32, blockno: u32)
    requires Inv(c) && i < NBUCKET && p < |c.bufmap[i]|
    ensures var v := c.bufmap[i][p];
      var bs := Relocate(c.bufmap, i, p, Hash(dev, blockno));
      var slots := c.buf[v := Rebind(c.buf[v], dev, blockno)];
      forall j, q :: 0 <= j < |bs| && 0 <= q < |bs[j]| ==>
        bs[j][q] < |slots| && Hash(slots[bs[j][q]].dev, slots[bs[j][q]].blockno) == j
  {
    var h := Hash(dev, blockno);
    var bs := Relocate(c.bufmap, i, p, h);
    forall j, q | 0 <= j < |bs| && 0 <= q < |bs[j]|
      ensures var slots := c.buf[c.bufmap[i][p] := Rebind(c.buf[c.bufmap[i][p]], dev, blockno)];
        bs[j][q] < |slots| && Hash(slots[bs[j][q]].dev, slots[bs[j][q]].blockno) == j
    {
      var q0 := RelocatedEntry(c, i, p, h, j, q);
    }
  }

  /** Binding one slot to a key no slot holds keeps the keys unique. */
  lemma RebindUnique(slots: seq<Buf>, v: nat, dev: u32, blockno: u32)
    requires UniqueKeys(slots) && v < |slots|
    requires forall s :: 0 <= s < |slots| ==> !slots[s].Holds(dev, blockno)
    ensures UniqueKeys(slots[v := Rebind(slots[v], dev, blockno)])
  {
    var slots' := slots[v := Rebind(slots[v], dev, blockno)];
    forall s, t | 0 <= s < |slots'| && 0 <= t < |slots'| && s != t && slots'[s].Holds(slots'[t].dev, slots'[t].blockno)
      ensures slots'[s].dev == 0 && slots'[s].blockno == 0
    {
      if s != v && t != v {
        assert slots[s].Holds(slots[t].dev, slots[t].blockno);
      } else if s == v {
        assert slots[t].Holds(dev, blockno);
      }
    }
  }

  /** Rebinding the victim to a block no slot holds, and moving it to that block's bucket,
      keeps the cache invariant. */
  lemma RebindKeepsInv(c: Cache, i: nat, p: nat, dev: u32, blockno: u32)
    requires Inv(c) && i < NBUCKET && p < |c.bufmap[i]|
    requires forall s :: 0 <= s < |c.buf| ==> !c.buf[s].Holds(dev, blockno)
    ensures var v := c.bufmap[i][p];
      Inv(Cache(Relocate(c.bufmap, i, p, Hash(dev, blockno)), c.buf[v := Rebind(c.buf[v], dev, blockno)]))
  {
    RelocateConserves(c.bufmap, i, p, Hash(dev, blockno));
    RebindHashed(c, i, p, dev, blockno);
    RebindUnique(c.buf, c.bufmap[i][p], dev, blockno);
  }

  /** bget keeps the cache invariant. */
  lemma BgetKeepsInv(c: Cache, dev: u32, blockno: u32)
    requires Inv(c)
    ensures Bget(c, dev, blockno).Some? ==> Inv(Bget(c, dev, blockno).value.1)
  {
    var h := Hash(dev, blockno);
    var k := FirstIndex(c.bufmap[h], c.buf, dev, blockno);
    if k < |c.bufmap[h]| {
      var v := c.bufmap[h][k];
      SameKeysKeepInv(c, c.buf[v := c.buf[v].(refcnt := c.buf[v].refcnt + 1)]);
    } else if Victim(c.bufmap, c.buf).Some? {
      var pos := Victim(c.bufmap, c.buf).value;
      NotCached(c, dev, blockno);
      RebindKeepsInv(c, pos.0, pos.1, dev, blockno);
    }
  }

  /** A hit: bget of a block held by slot s returns s and only adds one reference to it.
      The key (0, 0) is excluded: binit leaves every slot carrying it, so several slots of
      bucket 0 may hold it and bget returns the first of them (BgetOnHit), not any one s. */
  lemma BgetHit(c: Cache, s: nat, dev: u32, blockno: u32)
    requires Inv(c) && s < |c.buf| && c.buf[s].Holds(dev, blockno) && !(dev == 0 && blockno == 0)
    ensures Bget(c, dev, blockno) == Some((s, c.(buf := c.buf[s := c.buf[s].(refcnt := c.buf[s].refcnt + 1)])))
  {
    var h := Hash(dev, blockno);
    var i, p := SlotPosition(c, s);
    assert i == h;
    var k := FirstIndex(c.bufmap[h], c.buf, dev, blockno);
    assert k <= p;
    var x := c.bufmap[h][k];
    assert c.buf[x].Holds(dev, blockno);
    assert x == s;
  }

  /** On a miss with a free slot, bget relocates and rebinds the slot at the victim position. */
  lemma BgetMissShape(c: Cache, dev: u32, blockno: u32)
    requires Inv(c)
    requires forall s :: 0 <= s < |c.buf| ==> !c.buf[s].Holds(dev, blockno)
    requires exists s :: 0 <= s < |c.buf| && c.buf[s].refcnt == 0
    ensures Victim(c.bufmap, c.buf).Some?
    ensures var pos := Victim(c.bufmap, c.buf).value;
      var v := c.bufmap[pos.0][pos.1];
      Bget(c, dev, blockno) ==
        Some((v, Cache(Relocate(c.bufmap, pos.0, pos.1, Hash(dev, blockno)), c.buf[v := Rebind(c.buf[v], dev, blockno)])))
  {
    var s :| 0 <= s < |c.buf| && c.buf[s].refcnt == 0;
    var i, p := SlotPosition(c, s);
    assert FreeAt(c.bufmap, c.buf, i, p);
    VictimSpec(c.bufmap, c.buf);
  }

  /** A miss: the victim is a free slot released no later than any other free slot and is
      chosen by the tie-break; it is rebound to the block with one reference and no valid data. */
  lemma BgetMiss(c: Cache, dev: u32, blockno: u32)
    requires Inv(c)
    requires forall s :: 0 <= s < |c.buf| ==> !c.buf[s].Holds(dev, blockno)
    requires exists s :: 0 <= s < |c.buf| && c.buf[s].refcnt == 0
    ensures Bget(c, dev, blockno).Some?
    ensures var v := Bget(c, dev, blockno).value.0;
            var c' := Bget(c, dev, blockno).value.1;
      && (exists vi, vp :: IsVictim(c.bufmap, c.buf, vi, vp) && c.bufmap[vi][vp] == v)
      && c.buf[v].refcnt == 0
      && (forall s :: 0 <= s < |c.buf| && c.buf[s].refcnt == 0 ==> c.buf[v].lastuse <= c.buf[s].lastuse)
      && c'.buf == c.buf[v := Rebind(c.buf[v], dev, blockno)]
  {
    BgetMissShape(c, dev, blockno);
    VictimSpec(c.bufmap, c.buf);
    VictimLeastRecentlyUsed(c);
  }

  /** A miss moves the victim into bucket Hash(dev, blockno) (leaving it in place if it already
      was there) and out of every other bucket; every other slot keeps its buckets; no slot
      is lost or duplicated. */
  lemma BgetMissBuckets(c: Cache, dev: u32, blockno: u32)
    requires Inv(c)
    requires forall s :: 0 <= s < |c.buf| ==> !c.buf[s].Holds(dev, blockno)
    requires exists s :: 0 <= s < |c.buf| && c.buf[s].refcnt == 0
    ensures Bget(c, dev, blockno).Some?
    ensures var v := Bget(c, dev, blockno).value.0;
            var c' := Bget(c, dev, blockno).value.1;
      && (forall j :: 0 <= j < NBUCKET ==> (v in c'.bufmap[j] <==> j == Hash(dev, blockno)))
      && (v in c.bufmap[Hash(dev, blockno)] ==> c'.bufmap == c.bufmap)
      && (forall j, x :: 0 <= j < NBUCKET && x != v ==> (x in c'.bufmap[j] <==> x in c.bufmap[j]))
      && multiset(Flatten(c'.bufmap)) == multiset(Flatten(c.bufmap))
  {
    var h := Hash(dev, blockno);
    BgetMissShape(c, dev, blockno);
    var pos := Victim(c.bufmap, c.buf).value;
    var v := c.bufmap[pos.0][pos.1];
    RelocateMembership(c, pos.0, pos.1, h);
    RelocateConserves(c.bufmap, pos.0, pos.1, h);
    if v in c.bufmap[h] {
      var q :| 0 <= q < |c.bufmap[h]| && c.bufmap[h][q] == v;
      PositionsDistinct(c, h, q, pos.0, pos.1);
    }
  }

  /** bget panics ("bget: no buffers") exactly when the block is not cached and every slot
      of the pool is referenced. */
  lemma BgetPanicsIffExhausted(c: Cache, dev: u32, blockno: u32)
    requires Inv(c)
    ensures Bget(c, dev, blockno).None? <==>
      forall s :: 0 <= s < |c.buf| ==> !c.buf[s].Holds(dev, blockno) && c.buf[s].refcnt > 0
  {
    var h := Hash(dev, blockno);
    var k := FirstIndex(c.bufmap[h], c.buf, dev, blockno);
    VictimSpec(c.bufmap, c.buf);
    if k < |c.bufmap[h]| {
      assert c.buf[c.bufmap[h][k]].Holds(dev, blockno);
    } else {
      NotCached(c, dev, blockno);
      if Victim(c.bufmap, c.buf).None? {
        forall s | 0 <= s < |c.buf|
          ensures c.buf[s].refcnt > 0
        {
          var i, p := SlotPosition(c, s);
          assert !FreeAt(c.bufmap, c.buf, i, p);
        }
      } else {
        var pos := Victim(c.bufmap, c.buf).value;
        assert c.buf[c.bufmap[pos.0][pos.1]].refcnt == 0;
      }
    }
  }

  /** bread of a cached, valid block does no disk I/O and hands back the cached payload,
      only adding one reference.  The key (0, 0) is excluded for the reason BgetHit gives. */
  lemma BreadValidHitNoIO(c: Cache, disk: map<BlockId, Block>, s: nat, dev: u32, blockno: u32)
    requires Inv(c) && s < |c.buf| && c.buf[s].Holds(dev, blockno) && c.buf[s].valid && !(dev == 0 && blockno == 0)
    ensures Bread(c, disk, dev, blockno) == Some((s, c.(buf := c.buf[s := c.buf[s].(refcnt := c.buf[s].refcnt + 1)]), false))
  {
    BgetHit(c, s, dev, blockno);
  }

  /** bread of a block that is not cached reads it from the disk into the victim slot. */
  lemma BreadMissReadsDisk(c: Cache, disk: map<BlockId, Block>, dev: u32, blockno: u32)
    requires Inv(c)
    requires forall s :: 0 <= s < |c.buf| ==> !c.buf[s].Holds(dev, blockno)
    requires exists s :: 0 <= s < |c.buf| && c.buf[s].refcnt == 0
    ensures Bread(c, disk, dev, blockno).Some?
    ensures var r := Bread(c, disk, dev, blockno).value;
      r.2 && r.1.buf[r.0].data == DiskRead(disk, BlockId(dev, blockno)) && r.1.buf[r.0].refcnt == 1
  {
    BgetMiss(c, dev, blockno);
  }

  /** bget when the lookup of bucket h found slot v. */
  lemma BgetOnHit(c: Cache, dev: u32, blockno: u32, h: nat, v: nat)
    requires |c.bufmap| == NBUCKET && Shaped(c.bufmap, |c.buf|) && h == Hash(dev, blockno)
    requires FirstIndex(c.bufmap[h], c.buf, dev, blockno) < |c.bufmap[h]|
    requires c.bufmap[h][FirstIndex(c.bufmap[h], c.buf, dev, blockno)] == v
    ensures Bget(c, dev, blockno) == Some((v, c.(buf := c.buf[v := c.buf[v].(refcnt := c.buf[v].refcnt + 1)])))
  {
  }

  /** bget when the lookup of bucket h found nothing and the scan chose `best`. */
  lemma BgetOnMiss(c: Cache, dev: u32, blockno: u32, h: nat, best: Option<(nat, nat)>)
    requires |c.bufmap| == NBUCKET && Shaped(c.bufmap, |c.buf|) && h == Hash(dev, blockno)
    requires FirstIndex(c.bufmap[h], c.buf, dev, blockno) == |c.bufmap[h]|
    requires best == Victim(c.bufmap, c.buf)
    ensures best.None? ==> Bget(c, dev, blockno).None?
    ensures best.Some? ==> var v := c.bufmap[best.value.0][best.value.1];
      Bget(c, dev, blockno) == Some((v, Cache(Relocate(c.bufmap, best.value.0, best.value.1, h), c.buf[v := Rebind(c.buf[v], dev, blockno)])))
  {
  }

  // ---------------------------------------------------------------------------------
  // binit on values
  // ---------------------------------------------------------------------------------

  /** The list binit leaves in bucket 0: every slot pushed onto the front in turn, so the
      last slot first. */
  function Desc(n: nat): (l: seq<nat>)
    ensures |l| == n
  {
    if n == 0 then [] else [n - 1] + Desc(n - 1)
  }

  /** Slot record as binit leaves it: the zero-initialised static record. */
  function InitBuf(): Buf {
    Buf(false, 0, 0, 0, 0, ZeroBlock())
  }

  lemma {:induction false} DescSlots(n: nat)
    ensures multiset(Desc(n)) == Slots(n)
  {
    if n > 0 {
      DescSlots(n - 1);
    }
  }

  /** Position p of bucket 0 after binit holds slot n - 1 - p. */
  lemma {:induction false} DescAt(n: nat, p: nat)
    requires p < n
    ensures Desc(n)[p] == n - 1 - p
  {
    if p > 0 {
      DescAt(n - 1, p - 1);
    }
  }

  /** binit establishes the cache invariant: all slots in bucket 0, each once. */
  lemma InitInv(c: Cache)
    requires |c.bufmap| == NBUCKET && c.bufmap[0] == Desc(|c.buf|)
    requires forall k :: 1 <= k < NBUCKET ==> c.bufmap[k] == []
    requires forall s :: 0 <= s < |c.buf| ==> c.buf[s] == InitBuf()
    ensures Inv(c)
  {
    DescSlots(|c.buf|);
    forall p | 0 <= p < |c.buf|
      ensures c.bufmap[0][p] < |c.buf|
    {
      DescAt(|c.buf|, p);
    }
    FlattenEmpty(c.bufmap[1..]);
    assert Flatten(c.bufmap) == c.bufmap[0] + Flatten(c.bufmap[1..]);
    assert Hash(0, 0) == 0;
  }

  /** The cache's round trip: a block fetched with bread, released with brelse (after any
      bwrite, whatever the disk now holds) and fetched again before anything else touches
      the cache comes back in the same slot with the same payload and no second disk read. */
  lemma ReleaseThenRead(c: Cache, disk: map<BlockId, Block>, disk2: map<BlockId, Block>, dev: u32, blockno: u32,
                        ticks: u32, v: nat, c1: Cache, read: bool)
    requires Inv(c) && !(dev == 0 && blockno == 0) && Bread(c, disk, dev, blockno) == Some((v, c1, read))
    ensures Inv(c1) && v < |c1.buf| && c1.buf[v].refcnt > 0
    ensures var c2 := ReleaseSlot(c1, v, ticks);
      && Bread(c2, disk2, dev, blockno) == Some((v, c2.(buf := c2.buf[v := c2.buf[v].(refcnt := c2.buf[v].refcnt + 1)]), false))
      && c2.buf[v].data == c1.buf[v].data
  {
    BreadKeepsInv(c, disk, dev, blockno, v, c1, read);
    ReadAfterRelease(c1, disk2, dev, blockno, ticks, v);
  }

  /** The second half of the round trip: bread right after brelse of a valid slot bound to
      the block is a hit with no disk read. */
  lemma ReadAfterRelease(c1: Cache, disk2: map<BlockId, Block>, dev: u32, blockno: u32, ticks: u32, v: nat)
    requires Inv(c1) && !(dev == 0 && blockno == 0) && v < |c1.buf|
    requires c1.buf[v].refcnt > 0 && c1.buf[v].Holds(dev, blockno) && c1.buf[v].valid
    ensures var c2 := ReleaseSlot(c1, v, ticks);
      && Bread(c2, disk2, dev, blockno) == Some((v, c2.(buf := c2.buf[v := c2.buf[v].(refcnt := c2.buf[v].refcnt + 1)]), false))
      && c2.buf[v].data == c1.buf[v].data
  {
    ReleaseKeepsInv(c1, v, ticks);
    var c2 := ReleaseSlot(c1, v, ticks);
    assert c2.buf[v].Holds(dev, blockno) && c2.buf[v].valid;
    BreadValidHitNoIO(c2, disk2, v, dev, blockno);
  }

  /** bread keeps the cache invariant and returns a referenced, valid slot bound to the block. */
  lemma BreadKeepsInv(c: Cache, disk: map<BlockId, Block>, dev: u32, blockno: u32, v: nat, c1: Cache, read: bool)
    requires Inv(c) && Bread(c, disk, dev, blockno) == Some((v, c1, read))
    ensures Inv(c1) && v < |c1.buf| && c1.buf[v].refcnt > 0 && c1.buf[v].Holds(dev, blockno) && c1.buf[v].valid
  {
    var g := Bget(c, dev, blockno).value;
    BgetKeepsInv(c, dev, blockno);
    if !g.1.buf[v].valid {
      SameKeysKeepInv(g.1, g.1.buf[v := g.1.buf[v].(data := DiskRead(disk, BlockId(dev, blockno)), valid := true)]);
    }
  }

  /** brelse of slot v on a snapshot. */
  function ReleaseSlot(c: Cache, v: nat, ticks: u32): Cache
    requires v < |c.buf| && c.buf[v].refcnt > 0
  {
    c.(buf := c.buf[v := Brelse(c.buf[v], ticks)])
  }

  /** brelse of a referenced slot keeps the cache invariant. */
  lemma ReleaseKeepsInv(c: Cache, v: nat, ticks: u32)
    requires Inv(c) && v < |c.buf| && c.buf[v].refcnt > 0
    ensures Inv(ReleaseSlot(c, v, ticks))
  {
    SameKeysKeepInv(c, ReleaseSlot(c, v, ticks).buf);
  }

  // ---------------------------------------------------------------------------------
  // The cache object
  // ---------------------------------------------------------------------------------

  /** bcache: the slot pool, the bucket lists, and the disk behind them. */
  class BCache {
    /** bcache.buf */
    const buf: array<Buf>
    /** bcache.bufmap: the lists behind the 13 sentinels. */
    const bufmap: array<seq<nat>>
    /** The block device, read and written by virtio_disk_rw. */
    var disk: map<BlockId, Block>
    /** Slots whose sleeplock the caller holds. */
    ghost var holding: set<nat>
    /** The number of disk reads issued so far. */
    ghost var diskReads: nat

    ghost function State(): Cache
      reads this, buf, bufmap
    {
      Cache(bufmap[..], buf[..])
    }

    ghost predicate Valid()
      reads this, buf, bufmap
    {
      && bufmap.Length == NBUCKET
      && Inv(State())
      && (forall b :: b in holding ==> b < buf.Length)
    }

    /** binit: every slot of a pool of `nbuf` is pushed onto bucket 0; the others stay empty. */
    constructor (nbuf: nat, disk0: map<BlockId, Block>)
      ensures Valid() && fresh(buf) && fresh(bufmap)
      ensures buf.Length == nbuf && bufmap.Length == NBUCKET
      ensures bufmap[0] == Desc(nbuf) && forall k :: 1 <= k < NBUCKET ==> bufmap[k] == []
      ensures forall s :: 0 <= s < nbuf ==> buf[s].refcnt == 0 && buf[s].lastuse == 0 && buf[s] == InitBuf()
      ensures disk == disk0 && holding == {} && diskReads == 0
    {
      buf := new Buf[nbuf](_ => InitBuf());
      bufmap := new seq<nat>[NBUCKET](_ => []);
      disk := disk0;
      holding := {};
      diskReads := 0;
      new;
      var i := 0;
      while i < nbuf
        invariant 0 <= i <= nbuf
        invariant bufmap[0] == Desc(i)
        invariant forall k :: 1 <= k < NBUCKET ==> bufmap[k] == []
        invariant forall s :: 0 <= s < nbuf ==> buf[s] == InitBuf()
        modifies buf, bufmap
      {
        buf[i] := buf[i].(lastuse := 0, refcnt := 0);
        bufmap[0] := [i] + bufmap[0];
        i := i + 1;
      }
      InitInv(State());
    }

    /** The hit scan of bucket h: the first slot of the list bound to (dev, blockno). */
    method Lookup(h: nat, dev: u32, blockno: u32) returns (r: Option<nat>)
      requires bufmap.Length == NBUCKET && h < NBUCKET && Shaped(bufmap[..], buf.Length)
      ensures var l := bufmap[h];
        r == if FirstIndex(l, buf[..], dev, blockno) < |l| then Some(l[FirstIndex(l, buf[..], dev, blockno)]) else None
    {
      var l := bufmap[h];
      assert l == State().bufmap[h];
      var p := 0;
      while p < |l|
        invariant p <= |l|
        invariant forall q :: 0 <= q < p ==> !buf[l[q]].Holds(dev, blockno)
      {
        if buf[l[p]].dev == dev && buf[l[p]].blockno == blockno {
          return Some(l[p]);
        }
        p := p + 1;
      }
      return None;
    }

    /** The victim scan: every bucket in ascending order, each list from its head, keeping the
        position of the free slot with the strictly smallest lastuse seen so far. */
    method ScanVictim() returns (best: Option<(nat, nat)>)
      requires bufmap.Length == NBUCKET && Shaped(bufmap[..], buf.Length)
      ensures best == Victim(bufmap[..], buf[..])
    {
      ghost var bs, slots := bufmap[..], buf[..];
      best := None;
      var i := 0;
      while i < NBUCKET
        invariant 0 <= i <= NBUCKET
        invariant best.Some? ==> FreeAt(bs, slots, best.value.0, best.value.1)
        invariant ScanFrom(bs, slots, i, 0, best) == Victim(bs, slots)
      {
        var l := bufmap[i];
        var p := 0;
        while p < |l|
          invariant p <= |l| && l == bs[i]
          invariant best.Some? ==> FreeAt(bs, slots, best.value.0, best.value.1)
          invariant ScanFrom(bs, slots, i, p, best) == Victim(bs, slots)
        {
          var s := l[p];
          if buf[s].refcnt == 0 && (best.None? || buf[s].lastuse < buf[bufmap[best.value.0][best.value.1]].lastuse) {
            best := Some((i, p));
          }
          p := p + 1;
        }
        i := i + 1;
      }
    }

    /** bget: the slot bound to (dev, blockno) with one more reference, locked by the caller;
        None is the panic "bget: no buffers". */
    method Get(dev: u32, blockno: u32) returns (b: Option<nat>)
      requires Valid()
      requires Bget(State(), dev, blockno).Some? ==> Bget(State(), dev, blockno).value.0 !in holding
      modifies this, buf, bufmap
      ensures Valid()
      ensures var r := Bget(old(State()), dev, blockno);
        && (r.Some? ==> b == Some(r.value.0) && State() == r.value.1 && holding == old(holding) + {r.value.0})
        && (r.None? ==> b.None? && State() == old(State()) && holding == old(holding))
      ensures disk == old(disk) && diskReads == old(diskReads)
    {
      var h := Hash(dev, blockno);
      var hit := Lookup(h, dev, blockno);
      if hit.Some? {
        Hit(dev, blockno, hit.value);
        b := hit;
      } else {
        b := Evict(dev, blockno);
      }
    }

    /** Valid() for a state equal to a snapshot already known to satisfy Inv. */
    lemma Settle(n: Cache)
      requires bufmap.Length == NBUCKET && Inv(n) && State() == n
      requires forall b :: b in holding ==> b < buf.Length
      ensures Valid()
    {
    }

    /** The hit path of bget: slot v, the first of bucket Hash(dev, blockno) bound to the
        block, gains a reference and is locked by the caller. */
    method Hit(dev: u32, blockno: u32, v: nat)
      requires Valid()
      requires var l := bufmap[Hash(dev, blockno)];
        FirstIndex(l, buf[..], dev, blockno) < |l| && l[FirstIndex(l, buf[..], dev, blockno)] == v
      modifies this, buf
      ensures Valid()
      ensures Bget(old(State()), dev, blockno) == Some((v, State())) && holding == old(holding) + {v}
      ensures disk == old(disk) && diskReads == old(diskReads)
    {
      ghost var c := State();
      BgetOnHit(c, dev, blockno, Hash(dev, blockno), v);
      BgetKeepsInv(c, dev, blockno);
      buf[v] := buf[v].(refcnt := buf[v].refcnt + 1);
      assert buf[..] == c.buf[v := c.buf[v].(refcnt := c.buf[v].refcnt + 1)];
      holding := holding + {v};
    }

    /** The miss path of bget (the re-check under the eviction lock finds nothing in a
        sequential run): choose the victim, relocate it to bucket Hash(dev, blockno) and
        rebind it. */
    method Evict(dev: u32, blockno: u32) returns (b: Option<nat>)
      requires Valid()
      requires FirstIndex(bufmap[Hash(dev, blockno)], buf[..], dev, blockno) == |bufmap[Hash(dev, blockno)]|
      modifies this, buf, bufmap
      ensures Valid()
      ensures var r := Bget(old(State()), dev, blockno);
        && (r.Some? ==> b == Some(r.value.0) && State() == r.value.1 && holding == old(holding) + {r.value.0})
        && (r.None? ==> b.None? && State() == old(State()) && holding == old(holding))
      ensures disk == old(disk) && diskReads == old(diskReads)
    {
      var best := ScanVictim();
      BgetOnMiss(State(), dev, blockno, Hash(dev, blockno), best);
      if best.None? {
        return None;
      }
      b := Take(dev, blockno, best.value.0, best.value.1);
    }

    /** The miss path once the scan has chosen position p of bucket i. */
    method Take(dev: u32, blockno: u32, i: nat, p: nat) returns (b: Option<nat>)
      requires Valid()
      requires FirstIndex(bufmap[Hash(dev, blockno)], buf[..], dev, blockno) == |bufmap[Hash(dev, blockno)]|
      requires Victim(bufmap[..], buf[..]) == Some((i, p))
      modifies this, buf, bufmap
      ensures Valid()
      ensures var r := Bget(old(State()), dev, blockno);
        && (r.Some? ==> b == Some(r.value.0) && State() == r.value.1 && holding == old(holding) + {r.value.0})
        && (r.None? ==> b.None? && State() == old(State()) && holding == old(holding))
      ensures disk == old(disk) && diskReads == old(diskReads)
    {
      ghost var c := State();
      BgetOnMiss(c, dev, blockno, Hash(dev, blockno), Some((i, p)));
      BgetKeepsInv(c, dev, blockno);
      var v := bufmap[i][p];
      Install(i, p, Hash(dev, blockno), dev, blockno);
      holding := holding + {v};
      Settle(Bget(c, dev, blockno).value.1);
      b := Some(v);
    }

    /** The tail of bget on a miss: relocate the victim at position p of bucket i to bucket
        h and rebind its record to (dev, blockno) with one reference and no valid data. */
    method Install(i: nat, p: nat, h: nat, dev: u32, blockno: u32)
      requires bufmap.Length == NBUCKET && i < NBUCKET && h < NBUCKET && p < |bufmap[i]|
      requires bufmap[i][p] < buf.Length
      modifies buf, bufmap
      ensures var v := old(bufmap[i][p]);
        State() == Cache(Relocate(old(bufmap[..]), i, p, h), old(buf[..])[v := Rebind(old(buf[v]), dev, blockno)])
    {
      var v := bufmap[i][p];
      Relink(i, p, h);
      buf[v] := buf[v].(dev := dev, blockno := blockno, refcnt := 1, valid := false);
    }

    /** The relocation step of bget: when the victim's bucket i is not h, unlink the victim
        from bucket i and push it onto the front of bucket h. */
    method Relink(i: nat, p: nat, h: nat)
      requires bufmap.Length == NBUCKET && i < NBUCKET && h < NBUCKET && p < |bufmap[i]|
      modifies bufmap
      ensures bufmap[..] == Relocate(old(bufmap[..]), i, p, h)
    {
      if i != h {
        var v := bufmap[i][p];
        bufmap[i] := bufmap[i][..p] + bufmap[i][p + 1..];
        bufmap[h] := [v] + bufmap[h];
      }
    }

    /** bread: bget, then a disk read into the slot when it is not valid. */
    method Read(dev: u32, blockno: u32) returns (b: Option<nat>)
      requires Valid()
      requires Bget(State(), dev, blockno).Some? ==> Bget(State(), dev, blockno).value.0 !in holding
      modifies this, buf, bufmap
      ensures Valid()
      ensures var r := Bread(old(State()), old(disk), dev, blockno);
        && (r.Some? ==> b == Some(r.value.0) && State() == r.value.1 && holding == old(holding) + {r.value.0}
                        && diskReads == old(diskReads) + (if r.value.2 then 1 else 0))
        && (r.None? ==> b.None? && State() == old(State()) && holding == old(holding) && diskReads == old(diskReads))
      ensures disk == old(disk)
    {
      b := Get(dev, blockno);
      if b.Some? {
        var v := b.value;
        if !buf[v].valid {
          ghost var c := State();
          buf[v] := buf[v].(data := DiskRead(disk, BlockId(dev, blockno)), valid := true);
          assert buf[..] == c.buf[v := c.buf[v].(data := DiskRead(disk, BlockId(dev, blockno)), valid := true)];
          diskReads := diskReads + 1;
          SameKeysKeepInv(c, buf[..]);
        }
      }
    }

    /** bwrite: the caller must hold the slot's sleeplock; the slot's payload goes to its block. */
    method Write(b: nat)
      requires Valid() && b < buf.Length && b in holding
      modifies this
      ensures Valid()
      ensures disk == old(disk)[BlockId(buf[b].dev, buf[b].blockno) := buf[b].data]
      ensures holding == old(holding) && diskReads == old(diskReads)
    {
      disk := disk[BlockId(buf[b].dev, buf[b].blockno) := buf[b].data];
    }

    /** brelse: the caller must hold the slot's sleeplock; it gives up the lock and one
        reference, and the release of the last reference stamps lastuse with ticks. */
    method Release(b: nat, ticks: u32)
      requires Valid() && b < buf.Length && b in holding && buf[b].refcnt > 0
      modifies this, buf
      ensures Valid()
      ensures buf[..] == old(buf[..])[b := Brelse(old(buf[b]), ticks)]
      ensures holding == old(holding) - {b}
      ensures disk == old(disk) && diskReads == old(diskReads)
    {
      ghost var c := State();
      holding := holding - {b};
      buf[b] := buf[b].(refcnt := buf[b].refcnt - 1);
      if buf[b].refcnt == 0 {
        buf[b] := buf[b].(lastuse := ticks);
      }
      SameKeysKeepInv(c, buf[..]);
    }

    /** bpin: one more reference; lastuse is left alone. */
    method Pin(b: nat)
      requires Valid() && b < buf.Length
      modifies buf
      ensures Valid()
      ensures buf[..] == old(buf[..])[b := old(buf[b]).(refcnt := old(buf[b]).refcnt + 1)]
    {
      ghost var c := State();
      buf[b] := buf[b].(refcnt := buf[b].refcnt + 1);
      SameKeysKeepInv(c, buf[..]);
    }

    /** bunpin: one reference fewer; lastuse is left alone. */
    method Unpin(b: nat)
      requires Valid() && b < buf.Length && buf[b].refcnt > 0
      modifies buf
      ensures Valid()
      ensures buf[..] == old(buf[..])[b := old(buf[b]).(refcnt := old(buf[b]).refcnt - 1)]
    {
      ghost var c := State();
      buf[b] := buf[b].(refcnt := buf[b].refcnt - 1);
      SameKeysKeepInv(c, buf[..]);
    }
  }
}
