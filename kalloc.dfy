/**
 * The physical page allocator of kernel/kalloc.c: one free list per CPU.
 *
 * A free list links the free pages through their first word; it is modelled as the
 * sequence of page addresses it links, head first. `kfree` pushes onto the calling CPU's
 * list; `kalloc` pops from it and, when it is empty, steals the front half of the first
 * non-empty list of another CPU. The CPU id, the first address after the kernel image
 * (`end`) and PHYSTOP are parameters.
 */
module KAlloc {
  import opened Wrappers
  import opened Lists

  /** PGSIZE: bytes per page. */
  const PGSIZE: nat := 4096

  /** PGROUNDUP: the least page boundary at or above a. */
  function PgRoundUp(a: nat): (r: nat)
    ensures r % PGSIZE == 0 && a <= r < a + PGSIZE
  {
    var q := (a + PGSIZE - 1) / PGSIZE;
    assert q * PGSIZE <= a + PGSIZE - 1 < q * PGSIZE + PGSIZE;
    q * PGSIZE
  }

  /** The check of kfree: page aligned, at or above the end of the kernel image, below PHYSTOP. */
  predicate Freeable(pa: nat, kernelEnd: nat, phyStop: nat) {
    pa % PGSIZE == 0 && kernelEnd <= pa && pa < phyStop
  }

  /** No page is on the free lists twice. */
  ghost predicate NoDup(ls: seq<seq<nat>>) {
    forall x :: multiset(Flatten(ls))[x] <= 1
  }

  /** Every free list is empty. */
  ghost predicate AllEmpty(ls: seq<seq<nat>>) {
    forall i :: 0 <= i < |ls| ==> ls[i] == []
  }

  /** The first CPU at or after j, other than id, whose free list is not empty. */
  function FirstNonEmpty(ls: seq<seq<nat>>, id: nat, j: nat): (r: Option<nat>)
    requires j <= |ls|
    ensures r.Some? ==> j <= r.value < |ls| && r.value != id && ls[r.value] != []
    ensures r.Some? ==> forall k :: j <= k < r.value && k != id ==> ls[k] == []
    ensures r.None? ==> forall k :: j <= k < |ls| && k != id ==> ls[k] == []
    decreases |ls| - j
  {
    if j == |ls| then None
    else if j != id && ls[j] != [] then Some(j)
    else FirstNonEmpty(ls, id, j + 1)
  }

  /** How many pages of an n-page list the caller takes: the slow pointer stops at n / 2,
      and a one-page list is taken whole. */
  function StealCount(n: nat): nat {
    if n / 2 == 0 then 1 else n / 2
  }

  /** kalloc on the free lists of all CPUs: the page returned (0 for none) and the new lists. */
  function Kalloc(ls: seq<seq<nat>>, id: nat): (r: (nat, seq<seq<nat>>))
    requires id < |ls|
    ensures |r.1| == |ls|
  {
    if ls[id] != [] then (ls[id][0], ls[id := ls[id][1..]])
    else match FirstNonEmpty(ls, id, 0)
      case None => (0, ls)
      case Some(i) =>
        var c := StealCount(|ls[i]|);
        (ls[i][0], ls[id := ls[i][1..c]][i := ls[i][c..]])
  }

  /** The pages freerange frees, in order: from a in steps of PGSIZE while the page ends by e. */
  function RangePages(a: nat, e: nat): (r: seq<nat>)
    decreases e - a
  {
    if a + PGSIZE <= e then [a] + RangePages(a + PGSIZE, e) else []
  }

  /** The reverse of a sequence: freeing pages one by one onto the front of a list leaves
      them in reverse order. */
  function Rev(s: seq<nat>): (r: seq<nat>)
    ensures |r| == |s| && multiset(r) == multiset(s)
  {
    if s == [] then [] else
      assert s == s[..|s| - 1] + [s[|s| - 1]];
      [s[|s| - 1]] + Rev(s[..|s| - 1])
  }

  /** The fill map after memset(b) of each page of s in turn. */
  function FillPages(m: map<nat, bv8>, s: seq<nat>, b: bv8): map<nat, bv8> {
    if s == [] then m else FillPages(m, s[..|s| - 1], b)[s[|s| - 1] := b]
  }

  // ---------------------------------------------------------------------------------
  // Lemmas
  // ---------------------------------------------------------------------------------

  /** A list of a NoDup family holds no page twice. */
  lemma NoDupInList(ls: seq<seq<nat>>, i: nat, p: nat, q: nat)
    requires NoDup(ls) && i < |ls| && p < q < |ls[i]|
    ensures ls[i][p] != ls[i][q]
  {
    if ls[i][p] == ls[i][q] {
      SeqCount2(ls[i], p, q);
      FlattenCovers(ls, i);
    }
  }

  /** kfree adds exactly the freed page to the free pages. */
  lemma KfreeAdds(ls: seq<seq<nat>>, id: nat, pa: nat)
    requires id < |ls|
    ensures multiset(Flatten(ls[id := [pa] + ls[id]])) == multiset(Flatten(ls)) + multiset{pa}
    ensures |Flatten(ls[id := [pa] + ls[id]])| == |Flatten(ls)| + 1
  {
    FlattenUpdate(ls, id, [pa] + ls[id]);
    var a: multiset<nat>, b: multiset<nat> := multiset(Flatten(ls[id := [pa] + ls[id]])), multiset(Flatten(ls));
    var m: multiset<nat>, v: multiset<nat> := multiset(ls[id]), multiset{pa};
    assert multiset([pa] + ls[id]) == v + m;
    assert a + m == b + (v + m);
    forall x: nat
      ensures a[x] == (b + v)[x]
    {
      assert (a + m)[x] == (b + (v + m))[x];
    }
    assert a == b + v;
    assert |a| == |Flatten(ls[id := [pa] + ls[id]])|;
  }

  /** kfree keeps the free pages distinct when the page was not free. */
  lemma KfreeKeepsNoDup(ls: seq<seq<nat>>, id: nat, pa: nat)
    requires id < |ls| && NoDup(ls) && pa !in Flatten(ls)
    ensures NoDup(ls[id := [pa] + ls[id]])
  {
    KfreeAdds(ls, id, pa);
  }

  /** Stealing: when the caller's list is empty, the pages of the victim's list are split
      between the returned page, the caller's new list and the victim's new list. */
  lemma StealSplits(ls: seq<seq<nat>>, id: nat, i: nat)
    requires id < |ls| && i < |ls| && i != id && ls[id] == [] && ls[i] != []
    ensures var c := StealCount(|ls[i]|);
      multiset(Flatten(ls[id := ls[i][1..c]][i := ls[i][c..]])) + multiset{ls[i][0]} == multiset(Flatten(ls))
  {
    var l := ls[i];
    var c := StealCount(|l|);
    var ls1 := ls[id := l[1..c]];
    var ls2 := ls1[i := l[c..]];
    assert l == [l[0]] + l[1..c] + l[c..];
    FlattenUpdate(ls, id, l[1..c]);
    assert ls1[i] == l;
    FlattenUpdate(ls1, i, l[c..]);
    var f: multiset<nat>, f1: multiset<nat>, f2: multiset<nat> := multiset(Flatten(ls)), multiset(Flatten(ls1)), multiset(Flatten(ls2));
    var mh: multiset<nat>, ma: multiset<nat>, mb: multiset<nat> := multiset{l[0]}, multiset(l[1..c]), multiset(l[c..]);
    assert multiset(l) == mh + ma + mb;
    assert f1 == f + ma;
    assert f2 + (mh + ma + mb) == f1 + mb;
    forall x: nat
      ensures (f2 + mh)[x] == f[x]
    {
      assert (f2 + (mh + ma + mb))[x] == (f1 + mb)[x];
    }
    assert f2 + mh == f;
  }

  /** kalloc hands out one free page, or none when every list is empty, and keeps the rest. */
  lemma KallocConserves(ls: seq<seq<nat>>, id: nat)
    requires id < |ls|
    ensures var r := Kalloc(ls, id);
      && (AllEmpty(ls) ==> r.1 == ls)
      && (!AllEmpty(ls) ==> multiset(Flatten(r.1)) + multiset{r.0} == multiset(Flatten(ls)))
      && |Flatten(r.1)| == |Flatten(ls)| - (if AllEmpty(ls) then 0 else 1)
  {
    var r := Kalloc(ls, id);
    if ls[id] != [] {
      var l := ls[id];
      FlattenUpdate(ls, id, l[1..]);
      assert l == [l[0]] + l[1..];
      var f: multiset<nat>, f1: multiset<nat>, mh: multiset<nat>, mt: multiset<nat> :=
        multiset(Flatten(ls)), multiset(Flatten(r.1)), multiset{l[0]}, multiset(l[1..]);
      assert f1 + (mh + mt) == f + mt;
      forall x: nat
        ensures (f1 + mh)[x] == f[x]
      {
        assert (f1 + (mh + mt))[x] == (f + mt)[x];
      }
      assert f1 + mh == f;
      assert |f1 + mh| == |f|;
    } else if FirstNonEmpty(ls, id, 0).Some? {
      var i := FirstNonEmpty(ls, id, 0).value;
      StealSplits(ls, id, i);
      assert |multiset(Flatten(r.1)) + multiset{r.0}| == |multiset(Flatten(ls))|;
    } else {
      assert AllEmpty(ls);
    }
  }

  /** kalloc returns 0 exactly when every CPU's free list is empty. */
  lemma KallocNullIffEmpty(ls: seq<seq<nat>>, id: nat)
    requires id < |ls|
    requires forall i, p :: 0 <= i < |ls| && 0 <= p < |ls[i]| ==> ls[i][p] != 0
    ensures Kalloc(ls, id).0 == 0 <==> AllEmpty(ls)
  {
    if !AllEmpty(ls) && ls[id] == [] {
      assert FirstNonEmpty(ls, id, 0).Some?;
    }
  }

  /** The page kalloc returns was free and is free no longer; the lists stay distinct. */
  lemma KallocTakesFreePage(ls: seq<seq<nat>>, id: nat)
    requires id < |ls| && NoDup(ls) && !AllEmpty(ls)
    ensures var r := Kalloc(ls, id);
      r.0 in Flatten(ls) && r.0 !in Flatten(r.1) && NoDup(r.1)
  {
    KallocConserves(ls, id);
    var r := Kalloc(ls, id);
    assert multiset(Flatten(r.1))[r.0] + 1 == multiset(Flatten(ls))[r.0];
    forall x
      ensures multiset(Flatten(r.1))[x] <= 1
    {
      assert multiset(Flatten(r.1))[x] <= (multiset(Flatten(r.1)) + multiset{r.0})[x];
    }
  }

  /** The steal takes from the lowest-numbered other CPU with free pages: the caller keeps the
      first StealCount(n) pages of its n (handing out the head), the victim keeps the rest in
      order, and every other list is left alone. */
  lemma KallocSteals(ls: seq<seq<nat>>, id: nat, i: nat)
    requires id < |ls| && i < |ls| && i != id && ls[id] == [] && ls[i] != []
    requires forall k :: 0 <= k < i && k != id ==> ls[k] == []
    ensures var r := Kalloc(ls, id);
      var n := |ls[i]|;
      && r.0 == ls[i][0]
      && [r.0] + r.1[id] + r.1[i] == ls[i]
      && |r.1[id]| + 1 == (if n / 2 == 0 then 1 else n / 2)
      && forall k :: 0 <= k < |ls| && k != id && k != i ==> r.1[k] == ls[k]
  {
    var l := ls[i];
    var c := StealCount(|l|);
    assert l == [l[0]] + l[1..c] + l[c..];
  }

  /** Freeing a page and then allocating on the same CPU gives that page back and leaves the
      free lists as they were. */
  lemma KfreeThenKalloc(ls: seq<seq<nat>>, id: nat, pa: nat)
    requires id < |ls|
    ensures Kalloc(ls[id := [pa] + ls[id]], id) == (pa, ls)
  {
    assert ls[id := [pa] + ls[id]][id := ([pa] + ls[id])[1..]] == ls;
  }

  /** The pages of freerange: exactly the page-spaced addresses from a whose page ends by e. */
  lemma {:induction false} RangePagesSpec(a: nat, e: nat, x: nat)
    ensures x in RangePages(a, e) <==> a <= x && x + PGSIZE <= e && (x - a) % PGSIZE == 0
    decreases e - a
  {
    if a + PGSIZE <= e {
      RangePagesSpec(a + PGSIZE, e, x);
      if a < x && (x - a) % PGSIZE == 0 {
        assert x - (a + PGSIZE) == (x - a) - PGSIZE;
        assert x >= a + PGSIZE;
      }
      if a + PGSIZE <= x && (x - (a + PGSIZE)) % PGSIZE == 0 {
        assert (x - a) == (x - (a + PGSIZE)) + PGSIZE;
      }
    }
  }

  /** With the range inside [end, PHYSTOP) every page freerange frees passes kfree's check. */
  lemma RangePagesFreeable(a: nat, e: nat, kernelEnd: nat, phyStop: nat, x: nat)
    requires kernelEnd <= a && a % PGSIZE == 0 && e <= phyStop && x in RangePages(a, e)
    ensures Freeable(x, kernelEnd, phyStop)
  {
    RangePagesSpec(a, e, x);
    assert x == a + (x - a);
  }

  /** After filling the pages of s with b, exactly those pages hold b and the others keep their byte. */
  lemma {:induction false} FillPagesSpec(m: map<nat, bv8>, s: seq<nat>, b: bv8, x: nat)
    ensures x in s ==> x in FillPages(m, s, b) && FillPages(m, s, b)[x] == b
    ensures x !in s ==> (x in FillPages(m, s, b) <==> x in m) && (x in m ==> FillPages(m, s, b)[x] == m[x])
  {
    if s != [] {
      FillPagesSpec(m, s[..|s| - 1], b, x);
      assert s == s[..|s| - 1] + [s[|s| - 1]];
    }
  }

  /** One step of freerange's loop: page p moves from the pages still to free to the freed ones. */
  lemma RangeStep(done: seq<nat>, p: nat, next: nat, p0: nat, e: nat)
    requires done + RangePages(p, e) == RangePages(p0, e) && p + PGSIZE <= e && next == p + PGSIZE
    requires forall x :: x in done ==> x < p
    ensures p in RangePages(p0, e) && p !in done
    ensures (done + [p]) + RangePages(next, e) == RangePages(p0, e)
    ensures forall x :: x in done + [p] ==> x < next
  {
    var r := RangePages(next, e);
    assert RangePages(p, e) == [p] + r;
    assert (done + [p]) + r == done + ([p] + r);
    assert RangePages(p0, e)[|done|] == p;
  }

  /** The free lists after one kfree of freerange's loop, in terms of the pages freed so far. */
  lemma FreeStepLists(ls: seq<seq<nat>>, id: nat, done: seq<nat>, p: nat)
    requires id < |ls|
    ensures ls[id := Rev(done) + ls[id]][id := [p] + (Rev(done) + ls[id])] == ls[id := Rev(done + [p]) + ls[id]]
  {
    var head, next := Rev(done) + ls[id], Rev(done + [p]) + ls[id];
    RevSnoc(done, p);
    assert [p] + head == next;
    assert ls[id := head][id := next] == ls[id := next];
  }

  /** The page contents after one kfree of freerange's loop. */
  lemma FreeStepFill(m: map<nat, bv8>, done: seq<nat>, p: nat)
    ensures FillPages(m, done, 1)[p := 1] == FillPages(m, done + [p], 1)
  {
    assert (done + [p])[..|done|] == done;
  }

  lemma {:induction false} RevSnoc(s: seq<nat>, x: nat)
    ensures Rev(s + [x]) == [x] + Rev(s)
  {
    assert (s + [x])[..|s|] == s;
  }

  // ---------------------------------------------------------------------------------
  // The allocator object
  // ---------------------------------------------------------------------------------

  /** kmem[NCPU]: the free lists, and the byte every page was last filled with. */
  class KMem {
    const ncpu: nat
    /** `end`: the first address after the kernel image. */
    const kernelEnd: nat
    /** PHYSTOP: the end of physical memory. */
    const phyStop: nat
    /** kmem[i].freelist, head first. */
    const freelist: array<seq<nat>>
    /** The byte each page was last memset to (1 by kfree, 5 by kalloc). */
    var fill: map<nat, bv8>

    ghost predicate Valid()
      reads this, freelist
    {
      && freelist.Length == ncpu
      && 0 < kernelEnd
      && (forall i, p :: 0 <= i < ncpu && 0 <= p < |freelist[i]| ==> Freeable(freelist[i][p], kernelEnd, phyStop))
      && NoDup(freelist[..])
    }

    /** kinit, run on CPU id: every list empty, then freerange(end, PHYSTOP). */
    constructor (ncpu: nat, kernelEnd: nat, phyStop: nat, id: nat)
      requires 0 < kernelEnd && id < ncpu
      ensures Valid() && fresh(freelist)
      ensures this.ncpu == ncpu && this.kernelEnd == kernelEnd && this.phyStop == phyStop
      ensures freelist[id] == Rev(RangePages(PgRoundUp(kernelEnd), phyStop))
      ensures forall i :: 0 <= i < ncpu && i != id ==> freelist[i] == []
      ensures fill == FillPages(map[], RangePages(PgRoundUp(kernelEnd), phyStop), 1)
    {
      this.ncpu := ncpu;
      this.kernelEnd := kernelEnd;
      this.phyStop := phyStop;
      freelist := new seq<nat>[ncpu](_ => []);
      fill := map[];
      new;
      FlattenEmpty(freelist[..]);
      FreeRange(kernelEnd, phyStop, id);
    }

    /** kfree(pa) on CPU id. A page failing the check is the panic "kfree" (result false,
        nothing changes); otherwise it is filled with 1 and pushed onto CPU id's list. */
    method Free(pa: nat, id: nat) returns (ok: bool)
      requires Valid() && id < ncpu && pa !in Flatten(freelist[..])
      modifies this, freelist
      ensures Valid()
      ensures ok == Freeable(pa, kernelEnd, phyStop)
      ensures ok ==> freelist[..] == old(freelist[..])[id := [pa] + old(freelist[id])] && fill == old(fill)[pa := 1]
      ensures !ok ==> freelist[..] == old(freelist[..]) && fill == old(fill)
    {
      if pa % PGSIZE != 0 || pa < kernelEnd || pa >= phyStop {
        return false;
      }
      fill := fill[pa := 1];
      KfreeKeepsNoDup(freelist[..], id, pa);
      freelist[id] := [pa] + freelist[id];
      ok := true;
    }

    /** kalloc() on CPU id: the page it hands out (filled with 5), or 0. */
    method Alloc(id: nat) returns (r: nat)
      requires Valid() && id < ncpu
      modifies this, freelist
      ensures Valid()
      ensures (r, freelist[..]) == Kalloc(old(freelist[..]), id)
      ensures fill == if r == 0 then old(fill) else old(fill)[r := 5]
    {
      ghost var ls := freelist[..];
      r := 0;
      if freelist[id] != [] {
        r := freelist[id][0];
        freelist[id] := freelist[id][1..];
      } else {
        var i := 0;
        while i < ncpu
          invariant 0 <= i <= ncpu
          invariant r == 0 && freelist[..] == ls && fill == old(fill)
          invariant FirstNonEmpty(ls, id, i) == FirstNonEmpty(ls, id, 0)
        {
          if i == id {
            i := i + 1;
            continue;
          }
          var success := false;
          if freelist[i] != [] {
            Steal(id, i);
            success := true;
          }
          if success {
            r := freelist[id][0];
            freelist[id] := freelist[id][1..];
            assert freelist[..] == Kalloc(ls, id).1;
            break;
          }
          i := i + 1;
        }
      }
      if r != 0 {
        fill := fill[r := 5];
      }
      AllocKeepsValid(ls, id);
      AllocKeepsFreeable(ls, id, kernelEnd, phyStop);
    }

    /** The steal from CPU i into CPU id's empty list: find the middle node, hand the caller
        the list up to it and leave the victim the rest (a one-page list goes to the caller whole). */
    method Steal(id: nat, i: nat)
      requires freelist.Length == ncpu && id < ncpu && i < ncpu && i != id
      requires NoDup(freelist[..]) && freelist[id] == [] && freelist[i] != []
      modifies freelist
      ensures var l := old(freelist[i]);
        freelist[..] == old(freelist[..])[id := l[..StealCount(|l|)]][i := l[StealCount(|l|)..]]
    {
      var l := freelist[i];
      var p, pre := Middle(l);
      if p > 0 {
        NoDupInList(freelist[..], i, 0, p);
      }
      freelist[id] := l;
      if l[p] == l[0] {
        freelist[i] := [];
        assert l[..StealCount(|l|)] == l && l[StealCount(|l|)..] == [];
      } else {
        freelist[i] := l[p..];
        freelist[id] := l[..pre + 1];
      }
    }

    /** The fast/slow pointer walk of the steal: fp moves two nodes and p one while fp and
        its successor exist; pre trails p. p stops at the middle node n / 2. */
    static method Middle(l: seq<nat>) returns (p: nat, pre: nat)
      requires l != []
      ensures p == |l| / 2 && p < |l|
      ensures pre == if p == 0 then 0 else p - 1
    {
      var fp := 0;
      p, pre := 0, 0;
      while fp < |l| && fp + 1 < |l|
        invariant fp == 2 * p && 2 * p <= |l|
        invariant pre == if p == 0 then 0 else p - 1
      {
        fp := fp + 2;
        pre := p;
        p := p + 1;
      }
    }

    /** freerange(pa_start, pa_end) on CPU id: kfree of every page from PGROUNDUP(pa_start)
        whose end is at most pa_end, in ascending order. */
    method FreeRange(paStart: nat, paEnd: nat, id: nat)
      requires Valid() && id < ncpu && kernelEnd <= paStart && paEnd <= phyStop
      requires forall x :: x in RangePages(PgRoundUp(paStart), paEnd) ==> x !in Flatten(freelist[..])
      modifies this, freelist
      ensures Valid()
      ensures freelist[..] == old(freelist[..])[id := Rev(RangePages(PgRoundUp(paStart), paEnd)) + old(freelist[id])]
      ensures fill == FillPages(old(fill), RangePages(PgRoundUp(paStart), paEnd), 1)
    {
      var p := PgRoundUp(paStart);
      ghost var p0 := p;
      ghost var done: seq<nat> := [];
      ghost var ls := freelist[..];
      assert Rev(done) + ls[id] == ls[id];
      assert ls[id := ls[id]] == ls;
      assert done + RangePages(p, paEnd) == RangePages(p0, paEnd);
      while p + PGSIZE <= paEnd
        invariant Valid()
        invariant p0 <= p
        invariant done + RangePages(p, paEnd) == RangePages(p0, paEnd)
        invariant forall x :: x in done ==> x < p
        invariant freelist[..] == ls[id := Rev(done) + ls[id]]
        invariant fill == FillPages(old(fill), done, 1)
        decreases paEnd - p
      {
        var next := p + PGSIZE;
        RangeStep(done, p, next, p0, paEnd);
        RangePagesFreeable(p0, paEnd, kernelEnd, phyStop, p);
        NotFreeYet(ls, id, done, p);
        var ok := Free(p, id);
        FreeStepLists(ls, id, done, p);
        FreeStepFill(old(fill), done, p);
        done := done + [p];
        p := next;
      }
      assert RangePages(p, paEnd) == [];
      assert done == RangePages(p0, paEnd);
    }
  }

  /** Before freerange frees page x, x is on no list: it was not free at the start and is
      not among the pages freed so far. */
  lemma NotFreeYet(ls: seq<seq<nat>>, id: nat, done: seq<nat>, x: nat)
    requires id < |ls| && x !in Flatten(ls) && x !in done
    ensures x !in Flatten(ls[id := Rev(done) + ls[id]])
  {
    FlattenUpdate(ls, id, Rev(done) + ls[id]);
    var a: multiset<nat> := multiset(Flatten(ls[id := Rev(done) + ls[id]]));
    assert (a + multiset(ls[id]))[x] == (multiset(Flatten(ls)) + multiset(Rev(done) + ls[id]))[x];
    FlattenCovers(ls, id);
  }

  /** Every page kalloc leaves on a list was on a list before, so it still passes kfree's check. */
  lemma AllocKeepsFreeable(ls: seq<seq<nat>>, id: nat, kernelEnd: nat, phyStop: nat)
    requires id < |ls|
    requires forall i, p :: 0 <= i < |ls| && 0 <= p < |ls[i]| ==> Freeable(ls[i][p], kernelEnd, phyStop)
    ensures var ls' := Kalloc(ls, id).1;
      forall j, q :: 0 <= j < |ls'| && 0 <= q < |ls'[j]| ==> Freeable(ls'[j][q], kernelEnd, phyStop)
  {
    var ls' := Kalloc(ls, id).1;
    forall j, q | 0 <= j < |ls'| && 0 <= q < |ls'[j]|
      ensures Freeable(ls'[j][q], kernelEnd, phyStop)
    {
      if ls[id] != [] {
        if j == id {
          assert ls'[j][q] == ls[id][q + 1];
        }
      } else if FirstNonEmpty(ls, id, 0).Some? {
        var i := FirstNonEmpty(ls, id, 0).value;
        var c := StealCount(|ls[i]|);
        if j == id {
          assert ls'[j][q] == ls[i][q + 1];
        } else if j == i {
          assert ls'[j][q] == ls[i][q + c];
        }
      }
    }
  }

  /** kalloc keeps the allocator invariant. */
  lemma AllocKeepsValid(ls: seq<seq<nat>>, id: nat)
    requires id < |ls| && NoDup(ls)
    ensures NoDup(Kalloc(ls, id).1)
  {
    if !AllEmpty(ls) {
      KallocTakesFreePage(ls, id);
    } else {
      KallocConserves(ls, id);
    }
  }
}
