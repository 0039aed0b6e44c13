/**
 Host buffers for partial bitstreams: a call allocates pages into the device's current buffer, mmap
 moves them into a table, and a later call frees them. Who owns which page is tracked against what
 the kernel has handed out, over every run and with every failure the calls can meet.
 */
module ReconfigBuffers {
  import opened Errno
  import opened Wrappers

  const MAX_RECONFIG_BUFF_NUM: nat := 128
  const RECONFIG_BUFF_PAGE_SIZE: nat := 0x20_0000

  /** `reconfig_buff_metadata`: pages by number, and their DMA addresses. */
  datatype Buff = Buff(n: nat, pages: seq<nat>, hpages: seq<nat>, pid: int, crid: int)

  datatype Entry = Entry(vaddr: nat, buff: Buff)

  /**
   The device and what the kernel has handed out to it: live pages, live DMA mappings and the number
   of live bookkeeping arrays. `locked` says that a call ended without giving back the memory lock.
   */
  datatype Dev = Dev(curr: Buff, table: seq<Entry>, locked: bool, live: set<nat>, mapped: set<nat>, arrays: int)

  /** What the kernel answers in one allocation call; a missing value is a failure. */
  datatype Kernel = Kernel(pagesArray: bool, pages: seq<Option<nat>>, hpagesArray: bool, dma: seq<Option<nat>>)

  ghost function Elems(s: seq<nat>): set<nat> { set x | x in s }

  ghost predicate Distinct(s: seq<nat>) { forall i, j :: 0 <= i < j < |s| ==> s[i] != s[j] }

  predicate AllSome(s: seq<Option<nat>>) { forall i :: 0 <= i < |s| ==> s[i].Some? }

  function Values(s: seq<Option<nat>>): seq<nat>
    requires AllSome(s)
  {
    seq(|s|, i requires 0 <= i < |s| => s[i].value)
  }

  /** The kernel hands out what is not in use, and an answer for every request. */
  ghost predicate Honest(s: seq<Option<nat>>, used: set<nat>) {
    && (forall i :: 0 <= i < |s| && s[i].Some? ==> s[i].value !in used)
    && (forall i, j :: 0 <= i < j < |s| && s[i].Some? && s[j].Some? ==> s[i].value != s[j].value)
  }

  ghost predicate KernelOk(d: Dev, n: nat, k: Kernel) {
    |k.pages| == n && |k.dma| == n && Honest(k.pages, d.live) && Honest(k.dma, d.mapped)
  }

  // ---------------------------------------------------------------------------------------------
  // Steps
  // ---------------------------------------------------------------------------------------------

  datatype Event =
    | Alloc(n: nat, pid: int, crid: int, k: Kernel)
    | Mmap(vaddr: nat, pid: int, remapped: nat)
    | Free(vaddr: nat, pid: int, crid: int)

  /** The array for the page pointers is missing; no array is made of zero bytes. */
  predicate NoArray(n: nat, k: Kernel) { n == 0 || !k.pagesArray }

  predicate Succeeds(k: Kernel) { AllSome(k.pages) && k.hpagesArray && AllSome(k.dma) }

  /** The first address behind `start` at which a page begins. */
  function Aligned(start: nat): (r: nat)
    ensures r % RECONFIG_BUFF_PAGE_SIZE == 0 && start <= r < start + RECONFIG_BUFF_PAGE_SIZE
  {
    (start + RECONFIG_BUFF_PAGE_SIZE - 1) / RECONFIG_BUFF_PAGE_SIZE * RECONFIG_BUFF_PAGE_SIZE
  }

  predicate Matches(e: Entry, vaddr: nat, pid: int, crid: int) {
    e.vaddr == vaddr && e.buff.pid == pid && e.buff.crid == crid
  }

  /** The entry a free stops at, or the length of the table if none matches. */
  function Found(t: seq<Entry>, vaddr: nat, pid: int, crid: int): (f: nat)
    ensures f <= |t|
    ensures f < |t| ==> Matches(t[f], vaddr, pid, crid)
    ensures forall i :: 0 <= i < f ==> !Matches(t[i], vaddr, pid, crid)
  {
    if t == [] then 0
    else if Matches(t[0], vaddr, pid, crid) then 0
    else 1 + Found(t[1..], vaddr, pid, crid)
  }

  /** The pages or the DMA addresses of a buffer. */
  function Part(b: Buff, dma: bool): seq<nat> { if dma then b.hpages else b.pages }

  /** The pages or DMA addresses of a table, entry by entry. */
  function Parts(t: seq<Entry>, dma: bool): seq<nat> {
    if t == [] then [] else Part(t[0].buff, dma) + Parts(t[1..], dma)
  }

  /** Equal but for the arrays a buffer without pages still points to. */
  ghost predicate Same(d: Dev, d': Dev) {
    && d'.curr.n == d.curr.n
    && (d.curr.n != 0 ==> d'.curr == d.curr)
    && d' == d.(curr := d'.curr)
  }

  /** `alloc_reconfig_buffer`; no return value means that the call waits for the lock forever. */
  ghost predicate AllocStep(d: Dev, n: nat, pid: int, crid: int, k: Kernel, d': Dev, ret: Option<int>) {
    if d.curr.n != 0 then d' == d && ret == Some(-1)
    else if d.locked then d' == d && ret == None
    else if n > MAX_RECONFIG_BUFF_NUM then d' == d && ret == Some(-ENOMEM)
    else if NoArray(n, k) then
      d' == d.(locked := true, curr := d.curr.(n := n, pages := [])) && ret == Some(-ENOMEM)
    else if !Succeeds(k) then Same(d, d') && ret == Some(-ENOMEM)
    else
      var pages, hpages := Values(k.pages), Values(k.dma);
      && ret == Some(0)
      && d' == d.(curr := Buff(n, pages, hpages, pid, crid), live := d.live + Elems(pages),
                  mapped := d.mapped + Elems(hpages), arrays := d.arrays + 2)
  }

  /** `reconfig_dev_mmap`; `remapped` pages can be mapped into the process. */
  ghost predicate MmapStep(d: Dev, vaddr: nat, pid: int, remapped: nat, d': Dev, ret: Option<int>) {
    if d.curr.n == 0 || d.curr.pid != pid then d' == d && ret == Some(-EINVAL)
    else if d.locked then d' == d && ret == None
    else
      var added := d.(table := [Entry(vaddr, d.curr)] + d.table);
      if remapped < d.curr.n then d' == added.(locked := true) && ret == Some(-EIO)
      else d' == added.(curr := d.curr.(n := 0)) && ret == Some(0)
  }

  /** An entry has been taken off the table and everything it owns given back. */
  ghost function Dropped(d: Dev, i: nat): Dev
    requires i < |d.table|
  {
    var b := d.table[i].buff;
    d.(table := d.table[..i] + d.table[i + 1..], live := d.live - Elems(b.pages),
       mapped := d.mapped - Elems(b.hpages), arrays := d.arrays - 2)
  }

  /** `free_reconfig_buffer`: unlinking an entry ends the iteration, so one entry goes at most. */
  ghost predicate FreeStep(d: Dev, vaddr: nat, pid: int, crid: int, d': Dev, ret: Option<int>) {
    var f := Found(d.table, vaddr, pid, crid);
    ret == Some(0) && d' == if f < |d.table| then Dropped(d, f) else d
  }

  ghost predicate Step(d: Dev, e: Event, d': Dev, ret: Option<int>) {
    match e
    case Alloc(n, pid, crid, k) => KernelOk(d, n, k) && AllocStep(d, n, pid, crid, k, d', ret)
    case Mmap(vaddr, pid, remapped) => MmapStep(d, vaddr, pid, remapped, d', ret)
    case Free(vaddr, pid, crid) => FreeStep(d, vaddr, pid, crid, d', ret)
  }

  // ---------------------------------------------------------------------------------------------
  // Ownership
  // ---------------------------------------------------------------------------------------------

  /** A buffer waits to be mapped, and its pages are nowhere else. */
  predicate Holds(d: Dev) { d.curr.n != 0 && !d.locked }

  ghost function Owned(d: Dev, dma: bool): seq<nat> {
    (if Holds(d) then Part(d.curr, dma) else []) + Parts(d.table, dma)
  }

  ghost function HandedOut(d: Dev, dma: bool): set<nat> { if dma then d.mapped else d.live }

  /** A sequence lists the elements of a set, each exactly once. */
  ghost predicate Lists(s: seq<nat>, all: set<nat>) { Distinct(s) && Elems(s) == all }

  predicate Shaped(b: Buff) { |b.pages| == |b.hpages| == b.n }

  /** What the kernel handed out has exactly one owner, and owners hold nothing else. */
  ghost predicate Safe(d: Dev) {
    && (Holds(d) ==> Shaped(d.curr)) && (forall i :: 0 <= i < |d.table| ==> Shaped(d.table[i].buff))
    && (forall dma :: Lists(Owned(d, dma), HandedOut(d, dma)))
    && d.arrays == 2 * (|d.table| + if Holds(d) then 1 else 0)
  }

  /** The failures that leave the lock taken: can be told before the call. */
  ghost predicate Sticks(d: Dev, e: Event) {
    match e
    case Alloc(n, _, _, k) => d.curr.n == 0 && n <= MAX_RECONFIG_BUFF_NUM && NoArray(n, k)
    case Mmap(_, pid, remapped) => d.curr.n != 0 && d.curr.pid == pid && remapped < d.curr.n
    case Free(_, _, _) => false
  }

  lemma ValuesFresh(s: seq<Option<nat>>, used: set<nat>)
    requires AllSome(s) && Honest(s, used)
    ensures Distinct(Values(s)) && Elems(Values(s)) !! used
  {
  }

  lemma ListsJoin(s: seq<nat>, a: set<nat>, t: seq<nat>, b: set<nat>)
    requires Lists(s, a) && Lists(t, b) && a !! b
    ensures Lists(s + t, a + b)
  {
    forall i, j | 0 <= i < j < |s + t| ensures (s + t)[i] != (s + t)[j] {
      if i < |s| <= j { assert s[i] in a && t[j - |s|] in b; }
    }
    assert Elems(s + t) == a + b;
  }

  /** Taking one part out of an exact list leaves the other part. */
  lemma ListsSplit(s: seq<nat>, t: seq<nat>, u: seq<nat>, all: set<nat>)
    requires Lists(s + t + u, all)
    ensures Lists(s + u, all - Elems(t))
  {
    var w := s + t + u;
    forall i, j | 0 <= i < j < |s + u| ensures (s + u)[i] != (s + u)[j] {
      var i', j' := if i < |s| then i else i + |t|, if j < |s| then j else j + |t|;
      assert w[i'] == (s + u)[i] && w[j'] == (s + u)[j];
    }
    forall x ensures x in Elems(s + u) <==> x in all - Elems(t) {
      if x in s + u {
        var i :| 0 <= i < |s + u| && (s + u)[i] == x;
        var i' := if i < |s| then i else i + |t|;
        assert w[i'] == x;
        forall k | 0 <= k < |t| ensures t[k] != x { assert w[|s| + k] == t[k]; }
      }
      if x in all && x !in t {
        var k :| 0 <= k < |w| && w[k] == x;
        assert forall m :: |s| <= m < |s| + |t| ==> w[m] == t[m - |s|];
        assert (s + u)[if k < |s| then k else k - |t|] == x;
      }
    }
  }

  lemma {:induction false} PartsJoin(a: seq<Entry>, b: seq<Entry>, dma: bool)
    ensures Parts(a + b, dma) == Parts(a, dma) + Parts(b, dma)
    decreases |a|
  {
    if a == [] {
      assert a + b == b;
    } else {
      PartsJoin(a[1..], b, dma);
      var first, x, y := Part(a[0].buff, dma), Parts(a[1..], dma), Parts(b, dma);
      assert (a + b)[1..] == a[1..] + b && (a + b)[0] == a[0];
      assert first + (x + y) == (first + x) + y;
      hide Part;
    }
  }

  /** What is owned, with one table entry in the middle. */
  lemma OwnedAround(d: Dev, i: nat, dma: bool)
    requires i < |d.table|
    ensures var c := if Holds(d) then Part(d.curr, dma) else [];
            Owned(d, dma) == (c + Parts(d.table[..i], dma)) + Part(d.table[i].buff, dma) + Parts(d.table[i + 1..], dma)
  {
    var t := d.table;
    assert t == t[..i] + t[i..] && t[i..][1..] == t[i + 1..];
    assert Parts(t[i..], dma) == Part(t[i].buff, dma) + Parts(t[i + 1..], dma);
    hide Part, Parts;
    PartsJoin(t[..i], t[i..], dma);
  }

  lemma EntryOwned(d: Dev, i: nat)
    requires Safe(d) && i < |d.table|
    ensures var b := d.table[i].buff;
            Shaped(b) && forall dma :: Distinct(Part(b, dma)) && Elems(Part(b, dma)) <= HandedOut(d, dma)
    ensures var b := d.table[i].buff;
            && Distinct(b.pages) && Elems(b.pages) <= d.live && Distinct(b.hpages) && Elems(b.hpages) <= d.mapped
  {
    hide Parts;
    var b := d.table[i].buff;
    forall dma ensures Distinct(Part(b, dma)) && Elems(Part(b, dma)) <= HandedOut(d, dma) {
      OwnedAround(d, i, dma);
      var s := Owned(d, dma);
      assert Lists(s, HandedOut(d, dma));
      var n := |s| - |Part(b, dma)| - |Parts(d.table[i + 1..], dma)|;
      assert forall k :: 0 <= k < |Part(b, dma)| ==> s[n + k] == Part(b, dma)[k];
    }
    assert Part(b, false) == b.pages && Part(b, true) == b.hpages;
    assert HandedOut(d, false) == d.live && HandedOut(d, true) == d.mapped;
  }

  lemma EntryRemoved(d: Dev, i: nat)
    requires Safe(d) && i < |d.table|
    ensures Safe(Dropped(d, i))
  {
    hide Lists, Parts;
    var d' := Dropped(d, i);
    forall dma ensures Lists(Owned(d', dma), HandedOut(d', dma)) {
      var c := if Holds(d) then Part(d.curr, dma) else [];
      assert Lists(Owned(d, dma), HandedOut(d, dma));
      OwnedAround(d, i, dma);
      PartsJoin(d.table[..i], d.table[i + 1..], dma);
      ListsSplit(c + Parts(d.table[..i], dma), Part(d.table[i].buff, dma), Parts(d.table[i + 1..], dma),
                 HandedOut(d, dma));
      assert Owned(d', dma) == (c + Parts(d.table[..i], dma)) + Parts(d.table[i + 1..], dma);
    }
  }

  // ---------------------------------------------------------------------------------------------
  // Every run
  // ---------------------------------------------------------------------------------------------

  lemma AllocSafe(d: Dev, n: nat, pid: int, crid: int, k: Kernel, d': Dev, ret: Option<int>)
    requires Safe(d) && KernelOk(d, n, k) && AllocStep(d, n, pid, crid, k, d', ret)
    ensures Safe(d')
  {
    forall dma ensures Lists(Owned(d', dma), HandedOut(d', dma)) {
      assert Lists(Owned(d, dma), HandedOut(d, dma));
      if ret == Some(0) {
        var s := if dma then k.dma else k.pages;
        ValuesFresh(s, HandedOut(d, dma));
        assert Owned(d, dma) == Parts(d.table, dma);
        ListsJoin(Values(s), Elems(Values(s)), Parts(d.table, dma), HandedOut(d, dma));
        assert HandedOut(d', dma) == Elems(Values(s)) + HandedOut(d, dma);
      }
    }
  }

  lemma MmapSafe(d: Dev, v: nat, pid: int, remapped: nat, d': Dev, ret: Option<int>)
    requires Safe(d) && MmapStep(d, v, pid, remapped, d', ret)
    ensures Safe(d')
  {
    forall dma ensures Lists(Owned(d', dma), HandedOut(d', dma)) {
      assert Lists(Owned(d, dma), HandedOut(d, dma));
      if d' != d {
        assert d'.table[1..] == d.table;
        assert Owned(d', dma) == Owned(d, dma);
      }
    }
  }

  lemma FreeSafe(d: Dev, v: nat, pid: int, crid: int, d': Dev, ret: Option<int>)
    requires Safe(d) && FreeStep(d, v, pid, crid, d', ret)
    ensures Safe(d')
  {
    hide Safe;
    if Found(d.table, v, pid, crid) < |d.table| { EntryRemoved(d, Found(d.table, v, pid, crid)); }
  }

  /** Every step keeps ownership exact; the lock is lost in exactly the two failures. */
  lemma StepSafe(d: Dev, e: Event, d': Dev, ret: Option<int>)
    requires Safe(d) && Step(d, e, d', ret)
    ensures Safe(d')
    ensures !d.locked ==> (d'.locked <==> Sticks(d, e))
  {
    match e {
      case Alloc(n, pid, crid, k) => AllocSafe(d, n, pid, crid, k, d', ret);
      case Mmap(v, pid, remapped) => MmapSafe(d, v, pid, remapped, d', ret);
      case Free(v, pid, crid) => FreeSafe(d, v, pid, crid, d', ret);
    }
  }

  const Initial: Dev := Dev(Buff(0, [], [], 0, 0), [], false, {}, {}, 0)

  ghost predicate Run(tr: seq<Dev>, es: seq<Event>, rets: seq<Option<int>>) {
    && |tr| == |es| + 1 && |rets| == |es| && tr[0] == Initial
    && forall i :: 0 <= i < |es| ==> Step(tr[i], es[i], tr[i + 1], rets[i])
  }

  /** In every state of every run each live page has exactly one owner, as has each DMA mapping. */
  lemma {:induction false} RunSafe(tr: seq<Dev>, es: seq<Event>, rets: seq<Option<int>>, i: nat)
    requires Run(tr, es, rets) && i < |tr|
    ensures Safe(tr[i])
    decreases i
  {
    if i == 0 {
      assert forall dma :: Owned(Initial, dma) == [];
    } else {
      RunSafe(tr, es, rets, i - 1);
      StepSafe(tr[i - 1], es[i - 1], tr[i], rets[i - 1]);
    }
  }

  /** The lock is free in a state exactly when no call before it met one of the two failures. */
  lemma {:induction false} RunLock(tr: seq<Dev>, es: seq<Event>, rets: seq<Option<int>>, i: nat)
    requires Run(tr, es, rets) && i < |tr|
    ensures !tr[i].locked <==> forall j :: 0 <= j < i ==> !Sticks(tr[j], es[j])
    decreases i
  {
    if i > 0 {
      RunLock(tr, es, rets, i - 1);
      RunSafe(tr, es, rets, i - 1);
      assert Step(tr[i - 1], es[i - 1], tr[i], rets[i - 1]);
      StepSafe(tr[i - 1], es[i - 1], tr[i], rets[i - 1]);
      if tr[i - 1].locked { LockedForever(tr[i - 1], es[i - 1], tr[i], rets[i - 1]); }
    }
  }

  /** One page asked for and no array for its pointer: the first call already loses the lock. */
  lemma LostLockExample() returns (d: Dev)
    ensures Run([Initial, d], [Alloc(1, 7, 0, Kernel(false, [Some(3)], true, [Some(4)]))], [Some(-ENOMEM)]) && d.locked
  {
    d := Initial.(locked := true, curr := Initial.curr.(n := 1, pages := []));
  }

  /** Once the lock is lost no buffer is ever allocated or mapped again. */
  lemma LockedForever(d: Dev, e: Event, d': Dev, ret: Option<int>)
    requires d.locked && Step(d, e, d', ret)
    ensures d'.locked && d'.curr == d.curr
    ensures !e.Free? ==> d' == d && ret != Some(0)
  {
  }

  /** After a failed remap the current buffer keeps pointing to pages, also once they are freed. */
  lemma RemapFailureKeepsPages(d: Dev, v: nat, remapped: nat, d': Dev, d'': Dev)
    requires Safe(d) && !d.locked && d.curr.n != 0 && remapped < d.curr.n
    requires Step(d, Mmap(v, d.curr.pid, remapped), d', Some(-EIO))
    requires Step(d', Free(v, d.curr.pid, d.curr.crid), d'', Some(0))
    ensures d''.curr == d.curr && d''.locked && forall p :: p in d.curr.pages ==> p in d.live && p !in d''.live
  {
    assert d'.table[0] == Entry(v, d.curr);
    assert Found(d'.table, v, d.curr.pid, d.curr.crid) == 0;
    assert forall p :: p in d.curr.pages ==> p in Owned(d, false);
    assert Lists(Owned(d, false), HandedOut(d, false));
  }

  /**
   Allocating, mapping and freeing a buffer gives everything back, whatever else has the same key.
   The process that allocated it can map it, and with its ids it can be freed.
   */
  lemma AllocMapFree(d: Dev, n: nat, pid: int, crid: int, k: Kernel, v: nat, m: nat, d1: Dev, d2: Dev, d3: Dev,
                     ret2: Option<int>, ret3: Option<int>)
    requires Safe(d) && m >= n
    requires Step(d, Alloc(n, pid, crid, k), d1, Some(0))
    requires Step(d1, Mmap(v, pid, m), d2, ret2)
    requires Step(d2, Free(v, pid, crid), d3, ret3)
    ensures ret2 == Some(0) && ret3 == Some(0) && Same(d, d3)
  {
    assert d2.table[0] == Entry(v, d1.curr) && d2.table[1..] == d.table;
    assert Found(d2.table, v, pid, crid) == 0;
    ValuesFresh(k.pages, d.live);
    ValuesFresh(k.dma, d.mapped);
    assert d3.table == d.table;
    assert d3.live == d.live && d3.mapped == d.mapped;
  }

  /** What an allocation answers, and that a new buffer holds what the kernel gave, in order. */
  lemma AllocExact(d: Dev, n: nat, pid: int, crid: int, k: Kernel, d': Dev, ret: Option<int>)
    requires Step(d, Alloc(n, pid, crid, k), d', ret)
    ensures ret == if d.curr.n != 0 then Some(-1)
                   else if d.locked then None
                   else if && 0 < n <= MAX_RECONFIG_BUFF_NUM && k.pagesArray && k.hpagesArray
                           && AllSome(k.pages) && AllSome(k.dma) then Some(0)
                   else Some(-ENOMEM)
    ensures ret == Some(0) ==>
              && d'.curr.n == |d'.curr.pages| == |d'.curr.hpages| == n && d'.curr.pid == pid && d'.curr.crid == crid
              && forall i :: 0 <= i < n ==> Some(d'.curr.pages[i]) == k.pages[i] && Some(d'.curr.hpages[i]) == k.dma[i]
  {
  }

  /** Only the process that allocated a buffer can map it. */
  lemma MapByOther(d: Dev, n: nat, pid: int, crid: int, k: Kernel, v: nat, m: nat, other: int, d1: Dev, d2: Dev,
                   ret: Option<int>)
    requires Step(d, Alloc(n, pid, crid, k), d1, Some(0)) && other != pid
    requires Step(d1, Mmap(v, other, m), d2, ret)
    ensures d2 == d1 && ret == Some(-EINVAL)
  {
  }

  /** The entry has this address, process and region. */
  ghost predicate Keyed(e: Entry, v: nat, pid: int, crid: int) {
    e.vaddr == v && e.buff.pid == pid && e.buff.crid == crid
  }

  /** A free removes the first entry with that key and changes no other; without one it changes nothing. */
  lemma FreeExact(d: Dev, v: nat, pid: int, crid: int, d': Dev, k: nat)
    requires Step(d, Free(v, pid, crid), d', Some(0)) && k < |d.table|
    requires Keyed(d.table[k], v, pid, crid) && forall i :: 0 <= i < k ==> !Keyed(d.table[i], v, pid, crid)
    ensures d'.table == d.table[..k] + d.table[k + 1..] && d'.curr == d.curr && d'.locked == d.locked
    ensures d'.live == d.live - Elems(d.table[k].buff.pages) && d'.mapped == d.mapped - Elems(d.table[k].buff.hpages)
  {
    assert Found(d.table, v, pid, crid) == k;
  }

  lemma FreeMisses(d: Dev, v: nat, pid: int, crid: int, d': Dev)
    requires Step(d, Free(v, pid, crid), d', Some(0))
    requires forall i :: 0 <= i < |d.table| ==> !Keyed(d.table[i], v, pid, crid)
    ensures d' == d
  {
    var f := Found(d.table, v, pid, crid);
    if f < |d.table| { assert Keyed(d.table[f], v, pid, crid); }
  }

  /** Of two entries with one key a free releases the newer; the older keeps what it owns. */
  lemma FreeReleasesNewest(d: Dev, v: nat, pid: int, crid: int, d': Dev, k: nat)
    requires Safe(d) && Step(d, Free(v, pid, crid), d', Some(0))
    requires k < |d.table| && Matches(d.table[k], v, pid, crid) && Found(d.table, v, pid, crid) < k
    ensures d.table[k] in d'.table && forall p :: p in d.table[k].buff.pages ==> p in d'.live
  {
    var f := Found(d.table, v, pid, crid);
    FreeSafe(d, v, pid, crid, d', Some(0));
    assert d'.table[k - 1] == d.table[k];
    EntryOwned(d', k - 1);
  }

  // ---------------------------------------------------------------------------------------------
  // The calls
  // ---------------------------------------------------------------------------------------------

  class ReconfigDev {
    var curr: Buff
    var table: seq<Entry>
    var locked: bool
    // What the kernel has handed out.
    var live: set<nat>
    var mapped: set<nat>
    var arrays: int

    function D(): Dev
      reads this
    {
      Dev(curr, table, locked, live, mapped, arrays)
    }

    constructor ()
      ensures D() == Initial
    {
      curr, table, locked, live, mapped, arrays := Buff(0, [], [], 0, 0), [], false, {}, {}, 0;
    }

    /** Giving a page back; it must be one the kernel handed out. */
    method FreePage(p: nat)
      requires p in live
      modifies this`live
      ensures live == old(live) - {p}
    {
      live := live - {p};
    }

    method UnmapDma(h: nat)
      requires h in mapped
      modifies this`mapped
      ensures mapped == old(mapped) - {h}
    {
      mapped := mapped - {h};
    }

    /** The failure exit of an allocation: the first `taken` pages go back, last one first. */
    method FailAlloc(pages: array<nat>, taken: nat)
      requires taken <= pages.Length && Distinct(pages[..taken]) && Elems(pages[..taken]) <= live
      modifies this`live, this`curr, this`arrays
      ensures live == old(live) - Elems(pages[..taken])
      ensures curr == old(curr).(n := 0) && arrays == old(arrays) - 1
    {
      var i := taken;
      while i > 0
        invariant 0 <= i <= taken && Elems(pages[..i]) <= live && curr == old(curr) && arrays == old(arrays)
        invariant live == old(live) - Elems(pages[i..taken])
      {
        i := i - 1;
        assert pages[..taken][i] == pages[i];
        assert forall j :: 0 <= j < i ==> pages[..taken][j] != pages[i];
        assert pages[i] in pages[..i + 1];
        assert pages[i..taken] == [pages[i]] + pages[i + 1..taken];
        FreePage(pages[i]);
      }
      assert pages[0..taken] == pages[..taken];
      curr, arrays := curr.(n := 0), arrays - 1;
    }

    method UnmapAll(hpages: array<nat>, taken: nat)
      requires taken <= hpages.Length && Distinct(hpages[..taken]) && Elems(hpages[..taken]) <= mapped
      modifies this`mapped
      ensures mapped == old(mapped) - Elems(hpages[..taken])
    {
      for j := 0 to taken
        invariant mapped == old(mapped) - Elems(hpages[..j])
      {
        assert hpages[..taken][j] == hpages[j];
        assert forall i :: 0 <= i < j ==> hpages[..taken][i] != hpages[j];
        assert hpages[j] in hpages[..taken];
        assert hpages[..j + 1] == hpages[..j] + [hpages[j]];
        UnmapDma(hpages[j]);
      }
    }

    /** Takes pages until one is missing. */
    method TakePages(answers: seq<Option<nat>>, pages: array<nat>) returns (i: nat)
      requires pages.Length == |answers| && Honest(answers, live)
      modifies this`live, pages
      ensures i <= |answers| && AllSome(answers[..i]) && (i < |answers| ==> answers[i].None?)
      ensures pages[..i] == Values(answers[..i]) && live == old(live) + Elems(pages[..i])
    {
      i := 0;
      while i < |answers|
        invariant i <= |answers| && AllSome(answers[..i])
        invariant pages[..i] == Values(answers[..i]) && live == old(live) + Elems(pages[..i])
      {
        if answers[i].None? { return; }
        pages[i] := answers[i].value;
        live := live + {answers[i].value};
        i := i + 1;
        assert pages[..i] == pages[..i - 1] + [answers[i - 1].value];
      }
    }

    /** Maps pages until one fails. */
    method MapPages(answers: seq<Option<nat>>, hpages: array<nat>) returns (i: nat)
      requires hpages.Length == |answers| && Honest(answers, mapped)
      modifies this`mapped, hpages
      ensures i <= |answers| && AllSome(answers[..i]) && (i < |answers| ==> answers[i].None?)
      ensures hpages[..i] == Values(answers[..i]) && mapped == old(mapped) + Elems(hpages[..i])
    {
      i := 0;
      while i < |answers|
        invariant i <= |answers| && AllSome(answers[..i])
        invariant hpages[..i] == Values(answers[..i]) && mapped == old(mapped) + Elems(hpages[..i])
      {
        if answers[i].None? { return; }
        hpages[i] := answers[i].value;
        mapped := mapped + {answers[i].value};
        i := i + 1;
        assert hpages[..i] == hpages[..i - 1] + [answers[i - 1].value];
      }
    }

    method AllocReconfigBuffer(n: nat, pid: int, crid: int, k: Kernel) returns (ret: Option<int>)
      requires Safe(D()) && KernelOk(D(), n, k)
      modifies this
      ensures Step(old(D()), Alloc(n, pid, crid, k), D(), ret) && Safe(D())
    {
      hide Safe, Honest, Values;
      ghost var d := D();
      if curr.n != 0 { return Some(-1); }
      if locked { return None; }
      if n > MAX_RECONFIG_BUFF_NUM { return Some(-ENOMEM); }
      curr := curr.(n := n);
      if NoArray(n, k) {
        curr, locked := curr.(pages := []), true;
        AllocSafe(d, n, pid, crid, k, D(), Some(-ENOMEM));
        return Some(-ENOMEM);
      }
      arrays := arrays + 1;
      var pages := new nat[n];
      var i := TakePages(k.pages, pages);
      HonestPrefix(k.pages, i, d.live);
      if i < n || !k.hpagesArray {
        FailAlloc(pages, i);
        AllocSafe(d, n, pid, crid, k, D(), Some(-ENOMEM));
        return Some(-ENOMEM);
      }
      arrays := arrays + 1;
      var hpages := new nat[n];
      i := MapPages(k.dma, hpages);
      HonestPrefix(k.dma, i, d.mapped);
      if i < n {
        UnmapAll(hpages, i);
        arrays := arrays - 1;
        FailAlloc(pages, n);
        AllocSafe(d, n, pid, crid, k, D(), Some(-ENOMEM));
        return Some(-ENOMEM);
      }
      assert k.pages[..n] == k.pages && k.dma[..n] == k.dma && pages[..] == pages[..n] && hpages[..] == hpages[..n];
      curr := Buff(n, pages[..], hpages[..], pid, crid);
      AllocSafe(d, n, pid, crid, k, D(), Some(0));
      return Some(0);
    }

    /** Pages are remapped one by one; the first failure ends the call. */
    method ReconfigDevMmap(start: nat, pid: int, remapped: nat) returns (ret: Option<int>)
      requires Safe(D())
      modifies this
      ensures Step(old(D()), Mmap(Aligned(start), pid, remapped), D(), ret) && Safe(D())
      ensures ret == if old(curr).n == 0 || old(curr).pid != pid then Some(-EINVAL)
                     else if old(locked) then None
                     else if remapped < old(curr).n then Some(-EIO) else Some(0)
      ensures ret == Some(0) ==> curr.n == 0 && table == [Entry(Aligned(start), old(curr))] + old(table)
    {
      ghost var d := D();
      var vaddr := Aligned(start);
      if curr.n == 0 || curr.pid != pid { return Some(-EINVAL); }
      if locked { return None; }
      table := [Entry(vaddr, curr)] + table;
      var i := 0;
      while i < curr.n
        invariant i <= curr.n && i <= remapped && D() == d.(table := [Entry(vaddr, d.curr)] + d.table)
      {
        if i >= remapped {
          locked := true;
          MmapSafe(d, vaddr, pid, remapped, D(), Some(-EIO));
          return Some(-EIO);
        }
        i := i + 1;
      }
      curr := curr.(n := 0);
      MmapSafe(d, vaddr, pid, remapped, D(), Some(0));
      return Some(0);
    }

    /** The pages and mappings of one entry, and its two arrays. */
    method ReleaseEntry(b: Buff)
      requires Shaped(b) && Distinct(b.pages) && Distinct(b.hpages)
      requires Elems(b.pages) <= live && Elems(b.hpages) <= mapped
      modifies this`live, this`mapped, this`arrays
      ensures live == old(live) - Elems(b.pages) && mapped == old(mapped) - Elems(b.hpages)
      ensures arrays == old(arrays) - 2
    {
      for i := 0 to b.n
        invariant live == old(live) - Elems(b.pages[..i]) && mapped == old(mapped) - Elems(b.hpages[..i])
        invariant arrays == old(arrays)
      {
        assert b.pages[..i + 1] == b.pages[..i] + [b.pages[i]];
        assert b.hpages[..i + 1] == b.hpages[..i] + [b.hpages[i]];
        UnmapDma(b.hpages[i]);
        FreePage(b.pages[i]);
      }
      assert b.pages[..b.n] == b.pages && b.hpages[..b.n] == b.hpages;
      arrays := arrays - 2;
    }

    method FreeReconfigBuffer(vaddr: nat, pid: int, crid: int) returns (ret: Option<int>)
      requires Safe(D())
      modifies this
      ensures Step(old(D()), Free(vaddr, pid, crid), D(), ret) && Safe(D()) && ret == Some(0)
    {
      hide Safe, Matches;
      ghost var d := D();
      var i := 0;
      while i < |table|
        invariant i <= |table| && i <= Found(table, vaddr, pid, crid) && D() == d
      {
        if Matches(table[i], vaddr, pid, crid) {
          EntryOwned(d, i);
          ReleaseEntry(table[i].buff);
          table := table[..i] + table[i + 1..];
          FreeSafe(d, vaddr, pid, crid, D(), Some(0));
          return Some(0);
        }
        i := i + 1;
      }
      return Some(0);
    }
  }

  lemma HonestPrefix(s: seq<Option<nat>>, i: nat, used: set<nat>)
    requires i <= |s| && AllSome(s[..i]) && Honest(s, used)
    ensures Distinct(Values(s[..i])) && Elems(Values(s[..i])) !! used
  {
    ValuesFresh(s[..i], used);
  }
}
