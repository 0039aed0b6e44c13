/**
 Card memory: every memory block has a ring of 4 KB chunks for regular pages and one for huge pages.
 Allocation takes the next chunks of a ring without looking whether they are free; freeing moves the
 ring's pointer back to the chunk freed last.
 */
module CardMemory {
  import opened Errno
  import opened Bits
  import opened Tlb
  import opened TlbMapping

  /** 4 KB pages in a 2 MB huge page. */
  const HUGE: nat := 512

  // ---------------------------------------------------------------------------------------------
  // One ring
  // ---------------------------------------------------------------------------------------------

  /** `memory_partition`: the used flags, the chunk allocated next, and the count of free chunks. */
  datatype Ring = Ring(used: seq<bool>, alloc: nat, free: int)
  {
    function Size(): nat { |used| }

    predicate Valid() { alloc < |used| }
  }

  /** Position of the k-th chunk after another one. */
  function Nth(r: Ring, k: nat): nat
    requires r.Valid()
  {
    (r.alloc + k) % r.Size()
  }

  /** The chunks the next `n` allocations hand out. */
  function Ids(r: Ring, n: nat): seq<nat>
    requires r.Valid()
  {
    seq(n, k requires 0 <= k < n => Nth(r, k))
  }

  function TakeOne(r: Ring): (r': Ring)
    requires r.Valid()
    ensures r'.Valid() && r'.Size() == r.Size()
  {
    Ring(r.used[r.alloc := true], (r.alloc + 1) % r.Size(), r.free - 1)
  }

  /** The allocation loop. */
  function Take(r: Ring, n: nat): (r': Ring)
    requires r.Valid()
    ensures r'.Valid() && r'.Size() == r.Size()
  {
    if n == 0 then r else TakeOne(Take(r, n - 1))
  }

  function GiveOne(r: Ring, id: nat): (r': Ring)
    requires r.Valid() && id < r.Size()
    ensures r'.Valid() && r'.Size() == r.Size()
  {
    if r.used[id] then Ring(r.used[id := false], id, r.free + 1) else r
  }

  ghost predicate InRing(r: Ring, ids: seq<nat>) {
    forall k :: 0 <= k < |ids| ==> ids[k] < r.Size()
  }

  /** The free loop runs from the last page of a buffer to the first. */
  ghost function Give(r: Ring, ids: seq<nat>): (r': Ring)
    requires r.Valid() && InRing(r, ids)
    ensures r'.Valid() && r'.Size() == r.Size()
    decreases |ids|
  {
    if ids == [] then r else Give(GiveOne(r, ids[|ids| - 1]), ids[..|ids| - 1])
  }

  /** Which flags and which pointer a run of allocations leaves. */
  lemma {:induction false} TakeShape(r: Ring, n: nat)
    requires r.Valid() && n <= r.Size()
    ensures Take(r, n).alloc == Nth(r, n) && Take(r, n).free == r.free - n
    ensures forall i :: 0 <= i < r.Size() ==> (Take(r, n).used[i] <==> r.used[i] || i in Ids(r, n))
  {
    if n > 0 {
      TakeShape(r, n - 1);
      NthNext(r, n - 1);
      assert Ids(r, n) == Ids(r, n - 1) + [Nth(r, n - 1)];
    }
  }

  lemma NthNext(r: Ring, k: nat)
    requires r.Valid()
    ensures (Nth(r, k) + 1) % r.Size() == Nth(r, k + 1)
  {
    ModStep(r.alloc + k, r.Size());
  }

  lemma ModStep(x: nat, n: nat)
    requires n > 0
    ensures (x % n + 1) % n == (x + 1) % n
  {
    var q, m := x / n, x % n;
    if m + 1 < n { ModUnique(x + 1, n, q, m + 1); } else { Distribute(q, 1, n); ModUnique(x + 1, n, q + 1, 0); }
  }

  lemma ModUnique(x: nat, n: nat, q: nat, m: nat)
    requires m < n && x == q * n + m
    ensures x % n == m
  {
    Compare(q, m, x / n, x % n, n);
    Compare(x / n, x % n, q, m, n);
  }

  // ---------------------------------------------------------------------------------------------
  // Accounting, on every run
  // ---------------------------------------------------------------------------------------------

  ghost function Count(used: seq<bool>): nat {
    if used == [] then 0 else Count(used[..|used| - 1]) + (if used[|used| - 1] then 1 else 0)
  }

  lemma {:induction false} CountUpdate(used: seq<bool>, i: nat, b: bool)
    requires i < |used|
    ensures Count(used[i := b]) == Count(used) - (if used[i] then 1 else 0) + (if b then 1 else 0)
  {
    var n := |used| - 1;
    if i < n {
      CountUpdate(used[..n], i, b);
      assert used[i := b][..n] == used[..n][i := b];
    } else {
      assert used[i := b][..n] == used[..n];
    }
  }

  lemma {:induction false} CountBound(used: seq<bool>)
    ensures Count(used) <= |used|
  {
    if used != [] { CountBound(used[..|used| - 1]); }
  }

  /** No chunk is counted twice: free chunks and used ones fit into the ring. */
  ghost predicate Accounted(r: Ring) {
    r.Valid() && 0 <= r.free && r.free + Count(r.used) <= r.Size()
  }

  lemma {:induction false} TakeAccounted(r: Ring, n: nat)
    requires Accounted(r) && n <= r.free
    ensures Accounted(Take(r, n)) && Take(r, n).free == r.free - n
  {
    if n > 0 {
      TakeAccounted(r, n - 1);
      var r' := Take(r, n - 1);
      CountUpdate(r'.used, r'.alloc, true);
    }
  }

  lemma {:induction false} GiveAccounted(r: Ring, ids: seq<nat>)
    requires Accounted(r) && InRing(r, ids)
    ensures Accounted(Give(r, ids)) && Give(r, ids).free + Count(Give(r, ids).used) == r.free + Count(r.used)
    decreases |ids|
  {
    if ids != [] {
      var id := ids[|ids| - 1];
      if r.used[id] { CountUpdate(r.used, id, false); }
      GiveAccounted(GiveOne(r, id), ids[..|ids| - 1]);
    }
  }

  /** A request on a ring: allocate `n` chunks if enough are free, or free any chunks. */
  datatype Request = Alloc(n: nat) | Free(ids: seq<nat>)

  ghost function Serve(r: Ring, q: Request): (r': Ring)
    requires r.Valid()
    ensures r'.Valid() && r'.Size() == r.Size()
  {
    match q
    case Alloc(n) => if r.free < n then r else Take(r, n)
    case Free(ids) => if InRing(r, ids) then Give(r, ids) else r
  }

  ghost function ServeAll(r: Ring, qs: seq<Request>): (r': Ring)
    requires r.Valid()
    ensures r'.Valid() && r'.Size() == r.Size()
  {
    if qs == [] then r else Serve(ServeAll(r, qs[..|qs| - 1]), qs[|qs| - 1])
  }

  /** The ring as `allocate_card_resources` sets it up. */
  function Fresh(n: nat): Ring { Ring(seq(n, _ => false), 0, n) }

  lemma {:induction false} CountFresh(n: nat)
    ensures Count(seq(n, _ => false)) == 0
  {
    if n > 0 {
      CountFresh(n - 1);
      assert seq(n, _ => false)[..n - 1] == seq(n - 1, _ => false);
    }
  }

  /** On every run of allocations and frees, in any order, the books of a ring are never overdrawn. */
  lemma {:induction false} AlwaysAccounted(n: nat, qs: seq<Request>)
    requires n > 0
    ensures Accounted(ServeAll(Fresh(n), qs))
  {
    if qs == [] {
      CountFresh(n);
    } else {
      AlwaysAccounted(n, qs[..|qs| - 1]);
      var r := ServeAll(Fresh(n), qs[..|qs| - 1]);
      match qs[|qs| - 1]
      case Alloc(k) => if k <= r.free { TakeAccounted(r, k); }
      case Free(ids) => if InRing(r, ids) { GiveAccounted(r, ids); }
    }
  }

  /** Ring positions within one round are distinct. */
  lemma NthInjective(r: Ring, i: nat, k: nat)
    requires r.Valid() && i < k < r.Size()
    ensures Nth(r, i) != Nth(r, k)
  {
    var n := r.Size();
    var a, b := r.alloc + i, r.alloc + k;
    if a < n { ModUnique(a, n, 0, a); } else { ModUnique(a, n, 1, a - n); }
    if b < n { ModUnique(b, n, 0, b); } else { ModUnique(b, n, 1, b - n); }
  }

  /**
   An allocation hands out chunks that nobody holds, and the books stay exact, precisely when the
   next chunks of the ring are unused: the code does not check that.
   */
  lemma {:induction false} TakeExact(r: Ring, n: nat)
    requires Accounted(r) && n <= r.free && r.free + Count(r.used) == r.Size()
    ensures Take(r, n).free + Count(Take(r, n).used) == r.Size()
       <==> forall k :: 0 <= k < n ==> !r.used[Nth(r, k)]
  {
    hide Nth, Count;
    CountBound(r.used);
    if n > 0 {
      TakeExact(r, n - 1);
      var r' := Take(r, n - 1);
      TakeShape(r, n - 1);
      TakeAccounted(r, n - 1);
      CountUpdate(r'.used, r'.alloc, true);
      assert r'.used[Nth(r, n - 1)] <==> r.used[Nth(r, n - 1)] by {
        forall k | 0 <= k < n - 1 ensures Nth(r, k) != Nth(r, n - 1) { NthInjective(r, k, n - 1); }
      }
    }
  }

  /** The first position of the list whose chunk is in use and is not listed again behind it. */
  ghost function LastFreed(r: Ring, ids: seq<nat>): (k: nat)
    requires InRing(r, ids)
    ensures k <= |ids| && (k < |ids| ==> r.used[ids[k]] && ids[k] !in ids[k + 1..])
    ensures forall i :: 0 <= i < k ==> !r.used[ids[i]] || ids[i] in ids[i + 1..]
  {
    if ids == [] then 0
    else if r.used[ids[0]] && ids[0] !in ids[1..] then 0
    else
      assert forall i :: 1 <= i < |ids| ==> ids[i..] == ids[1..][i - 1..];
      1 + LastFreed(r, ids[1..])
  }

  /** Freeing clears the listed flags, and the pointer ends at the chunk that is freed last. */
  lemma {:induction false} GiveShape(r: Ring, ids: seq<nat>)
    requires r.Valid() && InRing(r, ids)
    ensures forall i :: 0 <= i < r.Size() ==> (Give(r, ids).used[i] <==> r.used[i] && i !in ids)
    ensures var k := LastFreed(r, ids); Give(r, ids).alloc == if k < |ids| then ids[k] else r.alloc
    ensures Give(r, ids).free + Count(Give(r, ids).used) == r.free + Count(r.used)
    decreases |ids|
  {
    hide Count;
    if ids != [] {
      var n := |ids| - 1;
      var id, rest := ids[n], ids[..n];
      var r1 := GiveOne(r, id);
      assert ids == rest + [id];
      if r.used[id] { CountUpdate(r.used, id, false); }
      GiveShape(r1, rest);
      FreedBefore(r, ids);
    }
  }

  lemma FreedBefore(r: Ring, ids: seq<nat>)
    requires r.Valid() && InRing(r, ids) && ids != []
    ensures var n := |ids| - 1;
            var k, k1 := LastFreed(r, ids), LastFreed(GiveOne(r, ids[n]), ids[..n]);
            if k < n then k1 == k else k1 == n && (k == n <==> r.used[ids[n]])
  {
    var n := |ids| - 1;
    var r1, rest := GiveOne(r, ids[n]), ids[..n];
    forall i | 0 <= i < n
      ensures r.used[ids[i]] && ids[i] !in ids[i + 1..] <==> r1.used[rest[i]] && rest[i] !in rest[i + 1..]
    {
      assert ids[i + 1..] == rest[i + 1..] + [ids[n]];
    }
  }

  lemma {:induction false} TakeCount(r: Ring, n: nat)
    requires r.Valid() && n <= r.Size() && forall k :: 0 <= k < n ==> !r.used[Nth(r, k)]
    ensures Count(Take(r, n).used) == Count(r.used) + n
  {
    hide Nth, Count;
    if n > 0 {
      TakeCount(r, n - 1);
      var r' := Take(r, n - 1);
      TakeShape(r, n - 1);
      CountUpdate(r'.used, r'.alloc, true);
      forall k | 0 <= k < n - 1 ensures Nth(r, k) != Nth(r, n - 1) { NthInjective(r, k, n - 1); }
    }
  }

  /** Chunks that were free, taken and given back are free again. */
  lemma TakeGiveFlags(r: Ring, n: nat)
    requires r.Valid() && n <= r.Size() && forall k :: 0 <= k < n ==> !r.used[Nth(r, k)]
    ensures InRing(Take(r, n), Ids(r, n)) && Give(Take(r, n), Ids(r, n)).used == r.used
  {
    TakeShape(r, n);
    var r1, ids := Take(r, n), Ids(r, n);
    assert forall k :: 0 <= k < n ==> ids[k] < r.Size() && !r.used[ids[k]];
    hide Nth, Take, Ids, Give, Count, LastFreed;
    GiveShape(r1, ids);
  }

  lemma TakeGivePointer(r: Ring, n: nat)
    requires r.Valid() && n <= r.Size() && InRing(Take(r, n), Ids(r, n))
    ensures Give(Take(r, n), Ids(r, n)).alloc == r.alloc
  {
    TakeShape(r, n);
    var r1, ids := Take(r, n), Ids(r, n);
    if n == 0 {
      ModUnique(r.alloc, r.Size(), 0, r.alloc);
    } else {
      FirstChunk(r, n);
      assert r1.used[ids[0]];
      hide Nth, Take, Ids, Give, Count;
      GiveShape(r1, ids);
    }
  }

  /** Giving back what was just taken restores the ring, if the chunks were free. */
  lemma TakeThenGive(r: Ring, n: nat)
    requires r.Valid() && n <= r.Size() && forall k :: 0 <= k < n ==> !r.used[Nth(r, k)]
    ensures InRing(Take(r, n), Ids(r, n)) && Give(Take(r, n), Ids(r, n)) == r
  {
    TakeShape(r, n);
    TakeCount(r, n);
    TakeGiveFlags(r, n);
    TakeGivePointer(r, n);
    hide Nth, Take, Ids, Give, Count, LastFreed;
    GiveShape(Take(r, n), Ids(r, n));
  }

  /** The first chunk handed out is where the pointer stands, and it does not come again. */
  lemma FirstChunk(r: Ring, n: nat)
    requires r.Valid() && 0 < n <= r.Size()
    ensures Ids(r, n)[0] == r.alloc && r.alloc !in Ids(r, n)[1..]
  {
    ModUnique(r.alloc, r.Size(), 0, r.alloc);
    forall k | 1 <= k < n ensures Nth(r, k) != r.alloc { NthInjective(r, 0, k); }
  }

  // ---------------------------------------------------------------------------------------------
  // Frees in stack order
  // ---------------------------------------------------------------------------------------------

  function Span(a: nat, n: nat): seq<nat> { seq(n, k requires 0 <= k < n => a + k) }

  ghost function Top(live: seq<seq<nat>>): nat {
    if live == [] then 0 else Top(live[..|live| - 1]) + |live[|live| - 1]|
  }

  /** Live buffers lie one behind the other from the first chunk on. */
  ghost predicate Stacked(live: seq<seq<nat>>) {
    live != [] ==>
      var below, top := live[..|live| - 1], live[|live| - 1];
      Stacked(below) && top == Span(Top(below), |top|)
  }

  /** The chunks below the top are used, all others are free, and the books are exact. */
  ghost predicate Packed(r: Ring, top: nat) {
    && r.Size() > 0 && top <= r.Size() && r.used == seq(r.Size(), i => i < top)
    && r.alloc == (if top == r.Size() then 0 else top) && r.free == r.Size() - top
  }

  lemma TakePacked(r: Ring, top: nat, n: nat)
    requires Packed(r, top) && n <= r.free
    ensures Ids(r, n) == Span(top, n) && Packed(Take(r, n), top + n)
  {
    TakePackedIds(r, top, n);
    TakeShape(r, n);
    hide Nth, Take;
    var r' := Take(r, n);
    assert r'.used == seq(r.Size(), i => i < top + n) by {
      forall i | 0 <= i < r.Size() ensures r'.used[i] == (i < top + n) {
        if top <= i < top + n { assert Ids(r, n)[i - top] == i; }
      }
    }
  }

  lemma TakePackedIds(r: Ring, top: nat, n: nat)
    requires Packed(r, top) && n <= r.free
    ensures Ids(r, n) == Span(top, n) && Nth(r, n) == if top + n == r.Size() then 0 else top + n
  {
    forall k | 0 <= k < n ensures Nth(r, k) == top + k { ModUnique(top + k, r.Size(), 0, top + k); }
    if r.alloc + n == r.Size() {
      ModUnique(r.alloc + n, r.Size(), 1, 0);
    } else {
      ModUnique(r.alloc + n, r.Size(), 0, r.alloc + n);
    }
  }

  lemma {:induction false} GivePacked(r: Ring, a: nat, n: nat)
    requires Packed(r, a + n)
    ensures InRing(r, Span(a, n)) && Packed(Give(r, Span(a, n)), a)
    decreases n
  {
    if n > 0 {
      var r1 := GiveOne(r, a + n - 1);
      assert Span(a, n)[..n - 1] == Span(a, n - 1);
      assert r1.used == seq(r.Size(), i => i < a + n - 1);
      GivePacked(r1, a, n - 1);
    }
  }

  /**
   Two buffers of one chunk, the older one freed first: on every ring of three chunks or more the
   books are exact, and yet the next two chunks include a live one.
   */
  lemma OutOfOrderExample(n: nat)
    requires n >= 3
    ensures var r := Give(Take(Fresh(n), 2), [0]);
            r.used[1] && 2 <= r.free && Ids(r, 2) == [0, 1] && r.free + Count(r.used) == r.Size() == n
  {
    hide Take, Count;
    FreshPacked(n);
    TakePacked(Fresh(n), 0, 2);
    var r2 := Take(Fresh(n), 2);
    var r := GiveOne(r2, 0);
    assert Give(r2, [0]) == r by { assert [0][..0] == []; }
    CountPrefix(n, 2);
    CountUpdate(r2.used, 0, false);
    ModUnique(0, n, 0, 0);
    ModUnique(1, n, 0, 1);
    assert Nth(r, 0) == 0 && Nth(r, 1) == 1;
  }

  /** A request in stack order: allocate, or free the buffer allocated last. */
  datatype StackRequest = Push(n: nat) | Pop

  ghost function StackStep(r: Ring, live: seq<seq<nat>>, q: StackRequest): (Ring, seq<seq<nat>>)
    requires r.Valid()
  {
    match q
    case Push(n) => if r.free < n then (r, live) else (Take(r, n), live + [Ids(r, n)])
    case Pop =>
      if live == [] || !InRing(r, live[|live| - 1]) then (r, live)
      else (Give(r, live[|live| - 1]), live[..|live| - 1])
  }

  ghost function StackRun(n: nat, qs: seq<StackRequest>): (p: (Ring, seq<seq<nat>>))
    requires n > 0
    ensures p.0.Valid()
  {
    if qs == [] then (Fresh(n), [])
    else
      var p := StackRun(n, qs[..|qs| - 1]);
      StackStep(p.0, p.1, qs[|qs| - 1])
  }

  lemma FreshPacked(n: nat)
    requires n > 0
    ensures Packed(Fresh(n), 0) && Fresh(n).Size() == n
  {
    assert Fresh(n).used == seq(n, i => i < 0);
  }

  lemma {:induction false} StackRunPacked(n: nat, qs: seq<StackRequest>)
    requires n > 0
    ensures Packed(StackRun(n, qs).0, Top(StackRun(n, qs).1)) && Stacked(StackRun(n, qs).1)
    ensures StackRun(n, qs).0.Size() == n
  {
    hide Take, Give, Packed;
    if qs != [] {
      StackRunPacked(n, qs[..|qs| - 1]);
      var (r, live) := StackRun(n, qs[..|qs| - 1]);
      match qs[|qs| - 1] {
        case Push(k) =>
          if k <= r.free {
            TakePacked(r, Top(live), k);
            assert (live + [Ids(r, k)])[..|live|] == live;
          }
        case Pop =>
          if live != [] {
            var m := |live| - 1;
            GivePacked(r, Top(live[..m]), |live[m]|);
          }
      }
    } else {
      FreshPacked(n);
    }
  }

  lemma {:induction false} StackedBounds(live: seq<seq<nat>>, i: nat, k: nat)
    requires Stacked(live) && i < |live| && k < |live[i]|
    ensures Top(live[..i]) <= live[i][k] < Top(live[..i + 1]) <= Top(live)
  {
    var m := |live| - 1;
    if i < m {
      StackedBounds(live[..m], i, k);
      assert live[..m][..i] == live[..i] && live[..m][..i + 1] == live[..i + 1];
    } else {
      assert live[..i + 1] == live;
    }
  }

  lemma {:induction false} TopMono(live: seq<seq<nat>>, i: nat, j: nat)
    requires i <= j <= |live|
    ensures Top(live[..i]) <= Top(live[..j])
  {
    if i < j {
      TopMono(live, i, j - 1);
      assert live[..j][..j - 1] == live[..j - 1];
    }
  }

  lemma {:induction false} CountPrefix(n: nat, top: nat)
    requires top <= n
    ensures Count(seq(n, i => i < top)) == top
  {
    if n > 0 {
      assert seq(n, i => i < top)[..n - 1] == seq(n - 1, i => i < if top == n then top - 1 else top);
      CountPrefix(n - 1, if top == n then top - 1 else top);
    }
  }

  /** With frees in stack order the books are exact and no two live buffers share a chunk. */
  lemma StackOrderExact(n: nat, qs: seq<StackRequest>, i: nat, k: nat, j: nat, l: nat)
    requires n > 0
    ensures var (r, live) := StackRun(n, qs);
            && r.free + Count(r.used) == n
            && (i < j < |live| && k < |live[i]| && l < |live[j]| ==> live[i][k] != live[j][l])
  {
    StackRunPacked(n, qs);
    var (r, live) := StackRun(n, qs);
    CountPrefix(n, Top(live));
    if i < j < |live| && k < |live[i]| && l < |live[j]| {
      StackedBounds(live, i, k);
      StackedBounds(live, j, l);
      TopMono(live, i + 1, j);
    }
  }

  // ---------------------------------------------------------------------------------------------
  // Huge pages, frees in any order
  // ---------------------------------------------------------------------------------------------

  /** The pointer is at a huge page and the flags are the same throughout every huge page. */
  ghost predicate Aligned(r: Ring) {
    && r.Valid() && r.Size() % HUGE == 0 && r.alloc % HUGE == 0
    && forall i :: 0 <= i < r.Size() ==> r.used[i] == r.used[i - i % HUGE]
  }

  lemma {:induction false} TakeTwice(r: Ring, a: nat, b: nat)
    requires r.Valid()
    ensures Take(r, a + b) == Take(Take(r, a), b)
  {
    if b > 0 { TakeTwice(r, a, b - 1); }
  }

  /** Taking a stretch that does not run past the end of the ring. */
  lemma TakeStretch(r: Ring, n: nat)
    requires r.Valid() && r.alloc + n <= r.Size()
    ensures Take(r, n).alloc == (if r.alloc + n == r.Size() then 0 else r.alloc + n)
    ensures forall i :: 0 <= i < r.Size() ==> Take(r, n).used[i] == (r.used[i] || r.alloc <= i < r.alloc + n)
  {
    TakeShape(r, n);
    forall k | 0 <= k < n ensures Nth(r, k) == r.alloc + k { ModUnique(r.alloc + k, r.Size(), 0, r.alloc + k); }
    if r.alloc + n == r.Size() {
      ModUnique(r.Size(), r.Size(), 1, 0);
    } else {
      ModUnique(r.alloc + n, r.Size(), 0, r.alloc + n);
    }
    forall i | 0 <= i < r.Size() ensures i in Ids(r, n) <==> r.alloc <= i < r.alloc + n {
      if r.alloc <= i < r.alloc + n { assert Ids(r, n)[i - r.alloc] == i; }
    }
  }

  /** One huge page taken from an aligned ring leaves it aligned. */
  lemma TakeHugeOne(r: Ring)
    requires Aligned(r)
    ensures r.alloc + HUGE <= r.Size() && Aligned(Take(r, HUGE))
  {
    hide Take;
    TakeStretch(r, HUGE);
  }

  lemma {:induction false} TakeHuge(r: Ring, m: nat)
    requires Aligned(r)
    ensures Aligned(Take(r, HUGE * m))
  {
    if m > 0 {
      TakeHuge(r, m - 1);
      TakeTwice(r, HUGE * (m - 1), HUGE);
      TakeHugeOne(Take(r, HUGE * (m - 1)));
    }
  }

  /** The pages of a huge allocation come in aligned, contiguous groups of 512. */
  lemma HugeIds(r: Ring, m: nat, g: nat, o: nat)
    requires Aligned(r) && g < m && o < HUGE
    ensures Ids(r, HUGE * m)[HUGE * g] % HUGE == 0
    ensures Ids(r, HUGE * m)[HUGE * g + o] == Ids(r, HUGE * m)[HUGE * g] + o
  {
    HugeOffset(r.alloc + HUGE * g, r.Size(), o);
  }

  lemma HugeOffset(x: nat, n: nat, o: nat)
    requires n > 0 && n % HUGE == 0 && x % HUGE == 0 && o < HUGE
    ensures (x % n) % HUGE == 0 && (x + o) % n == x % n + o
  {
    var k, a := n / HUGE, x / HUGE;
    var q, b := a / k, a % k;
    assert a == q * k + b;
    assert q * n == HUGE * (q * k) by { Assoc(q, HUGE, k); Assoc(HUGE, q, k); }
    ModUnique(x, n, q, HUGE * b);
    ModUnique(x + o, n, q, HUGE * b + o);
  }

  lemma {:induction false} GiveTwice(r: Ring, a: seq<nat>, b: seq<nat>)
    requires r.Valid() && InRing(r, a) && InRing(r, b)
    ensures InRing(r, a + b) && Give(r, a + b) == Give(Give(r, b), a)
    decreases |b|
  {
    if b == [] {
      assert a + b == a;
    } else {
      var m := |b| - 1;
      assert (a + b)[..|a + b| - 1] == a + b[..m];
      GiveTwice(GiveOne(r, b[m]), a, b[..m]);
    }
  }

  /** Freeing a stretch of chunks that are all used, or all unused. */
  lemma {:induction false} GiveStretch(r: Ring, a: nat, n: nat)
    requires r.Valid() && a + n <= r.Size() && n > 0
    requires forall i :: a <= i < a + n ==> r.used[i] == r.used[a]
    ensures InRing(r, Span(a, n))
    ensures !r.used[a] ==> Give(r, Span(a, n)) == r
    ensures r.used[a] ==> Give(r, Span(a, n)).alloc == a
    ensures r.used[a] ==>
              forall i :: 0 <= i < r.Size() ==> Give(r, Span(a, n)).used[i] == (r.used[i] && !(a <= i < a + n))
    decreases n
  {
    assert Span(a, n)[..n - 1] == Span(a, n - 1);
    var r1 := GiveOne(r, a + n - 1);
    if n > 1 { GiveStretch(r1, a, n - 1); }
  }

  ghost function GroupIds(gs: seq<nat>): seq<nat> {
    if gs == [] then [] else GroupIds(gs[..|gs| - 1]) + Span(HUGE * gs[|gs| - 1], HUGE)
  }

  lemma GiveHugeOne(r: Ring, g: nat)
    requires Aligned(r) && HUGE * g < r.Size()
    ensures InRing(r, Span(HUGE * g, HUGE)) && Aligned(Give(r, Span(HUGE * g, HUGE)))
  {
    hide Give;
    assert HUGE * g + HUGE <= r.Size();
    GiveStretch(r, HUGE * g, HUGE);
  }

  /** Freeing whole huge pages, in any order and even twice, keeps the ring aligned. */
  lemma {:induction false} GiveHuge(r: Ring, gs: seq<nat>)
    requires Aligned(r) && forall k :: 0 <= k < |gs| ==> HUGE * gs[k] < r.Size()
    ensures InRing(r, GroupIds(gs)) && Aligned(Give(r, GroupIds(gs)))
    decreases |gs|
  {
    if gs != [] {
      var m := |gs| - 1;
      var a := HUGE * gs[m];
      GiveHugeOne(r, gs[m]);
      GiveHuge(Give(r, Span(a, HUGE)), gs[..m]);
      GiveTwice(r, GroupIds(gs[..m]), Span(a, HUGE));
    }
  }

  datatype HugeRequest = AllocHuge(m: nat) | FreeHuge(gs: seq<nat>)

  ghost function ServeHuge(r: Ring, q: HugeRequest): (r': Ring)
    requires r.Valid()
    ensures r'.Valid() && r'.Size() == r.Size()
  {
    match q
    case AllocHuge(m) => if r.free < HUGE * m then r else Take(r, HUGE * m)
    case FreeHuge(gs) => if InRing(r, GroupIds(gs)) then Give(r, GroupIds(gs)) else r
  }

  ghost function ServeAllHuge(r: Ring, qs: seq<HugeRequest>): (r': Ring)
    requires r.Valid()
    ensures r'.Valid() && r'.Size() == r.Size()
  {
    if qs == [] then r else ServeHuge(ServeAllHuge(r, qs[..|qs| - 1]), qs[|qs| - 1])
  }

  /** On every run of huge allocations and frees of whole huge pages, the ring stays aligned. */
  lemma {:induction false} AlwaysAligned(n: nat, qs: seq<HugeRequest>)
    requires n > 0 && n % HUGE == 0
    ensures Aligned(ServeAllHuge(Fresh(n), qs))
  {
    if qs != [] {
      AlwaysAligned(n, qs[..|qs| - 1]);
      var r := ServeAllHuge(Fresh(n), qs[..|qs| - 1]);
      match qs[|qs| - 1]
      case AllocHuge(m) => TakeHuge(r, m);
      case FreeHuge(gs) =>
        if InRing(r, GroupIds(gs)) {
          forall k | 0 <= k < |gs| ensures HUGE * gs[k] < r.Size() { GroupStart(r, gs, k); }
          GiveHuge(r, gs);
        }
    }
  }

  lemma {:induction false} GroupStart(r: Ring, gs: seq<nat>, k: nat)
    requires InRing(r, GroupIds(gs)) && k < |gs|
    ensures HUGE * gs[k] < r.Size()
    decreases |gs|
  {
    var m := |gs| - 1;
    var below := GroupIds(gs[..m]);
    assert GroupIds(gs) == below + Span(HUGE * gs[m], HUGE);
    if k < m {
      assert InRing(r, below) by {
        forall i | 0 <= i < |below| ensures below[i] < r.Size() { assert GroupIds(gs)[i] == below[i]; }
      }
      GroupStart(r, gs[..m], k);
    } else {
      assert GroupIds(gs)[|below|] == HUGE * gs[m];
    }
  }

  // ---------------------------------------------------------------------------------------------
  // Addresses
  // ---------------------------------------------------------------------------------------------

  /** Layout of card memory: blocks, their size and start, chunks per ring, and the device family. */
  datatype Platform = Platform(versal: bool, blocks: nat, blockSize: nat, start: nat, small: nat, large: nat)

  const ULTRASCALE_PLUS := Platform(false, 1, 0, 256 * 1024 * 1024, 1024 * 1024, 1024 * 1024)
  const VERSAL := Platform(true, 64, 512 * 1024 * 1024, 256 * 1024 * 1024 * 1024, 64 * 1024, 64 * 1024)

  predicate Supported(p: Platform) { p == ULTRASCALE_PLUS || p == VERSAL }

  function Chunks(p: Platform, huge: bool): nat { if huge then p.large else p.small }

  /** Offset of a ring inside its block: the huge-page region follows the regular one. */
  function Region(p: Platform, huge: bool): nat { if huge then p.small * PAGE_SIZE else 0 }

  function Address(p: Platform, huge: bool, block: nat, id: nat): nat {
    id * PAGE_SIZE + Region(p, huge) + block * p.blockSize + p.start
  }

  /** The layout: blocks one behind the other from the start, in each the regular chunks and then the huge ones. */
  lemma AddressLayout(p: Platform, huge: bool, block: nat, id: nat)
    ensures Address(p, false, 0, 0) == p.start
    ensures Address(p, huge, block, id + 1) == Address(p, huge, block, id) + PAGE_SIZE
    ensures Address(p, true, block, 0) == Address(p, false, block, p.small)
    ensures Address(p, huge, block + 1, id) == Address(p, huge, block, id) + p.blockSize
  {
    Distribute(block, 1, p.blockSize);
  }

  /** What freeing computes from an address. */
  function BlockOf(p: Platform, addr: nat): int
  {
    if p.versal && p.blockSize > 0 then (addr - p.start) / p.blockSize else 0
  }

  function IdOf(p: Platform, huge: bool, block: int, addr: nat): int {
    (addr - Region(p, huge) - block * p.blockSize - p.start) / PAGE_SIZE
  }

  /** Freeing recovers the block and the chunk an address was made of; the address is in range. */
  lemma AddressRecovered(p: Platform, huge: bool, block: nat, id: nat)
    requires Supported(p) && block < p.blocks && id < Chunks(p, huge)
    ensures var a := Address(p, huge, block, id);
            && BlockOf(p, a) == block && IdOf(p, huge, block, a) == id
            && a % PAGE_SIZE == 0 && 0 < a < Pow2(TLB_PADDR_RANGE)
  {
    hide Pow2;
    PaddrRange();
    if p == VERSAL {
      assert Address(VERSAL, huge, block, id) - VERSAL.start
          == block * 0x2000_0000 + (Region(VERSAL, huge) + id * PAGE_SIZE);
    }
  }

  lemma PaddrRange()
    ensures Pow2(TLB_PADDR_RANGE) == 0x1000_0000_0000
  {
    assert Pow2(11) == 0x800;
    Pow2Double(11, 0x800);
    Pow2Double(22, 0x40_0000);
  }

  /** Chunks of different rings or different positions have different addresses. */
  lemma AddressInjective(p: Platform, huge: bool, block: nat, id: nat, huge': bool, block': nat, id': nat)
    requires Supported(p) && block < p.blocks && id < Chunks(p, huge)
    requires block' < p.blocks && id' < Chunks(p, huge')
    requires Address(p, huge, block, id) == Address(p, huge', block', id')
    ensures huge == huge' && block == block' && id == id'
  {
    AddressRecovered(p, huge, block, id);
    AddressRecovered(p, huge', block', id');
    assert huge == huge';
  }

  /** The card addresses of a buffer allocated from a ring. */
  function CardPages(p: Platform, huge: bool, block: nat, r: Ring, n: nat): seq<nat>
    requires r.Valid()
  {
    seq(n, k requires 0 <= k < n => Address(p, huge, block, Nth(r, k)))
  }

  /** The k-th page is the address of the k-th chunk from the pointer on, and freeing finds that chunk again. */
  lemma PagesRecovered(p: Platform, huge: bool, block: nat, r: Ring, n: nat, k: nat)
    requires Supported(p) && block < p.blocks && r.Valid() && r.Size() == Chunks(p, huge) && k < n
    ensures var a := CardPages(p, huge, block, r, n)[k];
            BlockOf(p, a) == block && IdOf(p, huge, block, a) == (r.alloc + k) % r.Size()
  {
    hide Address, BlockOf, IdOf;
    AddressRecovered(p, huge, block, Nth(r, k));
  }

  /**
   A huge buffer's card pages are what the large TLB needs: from any aligned ring, every huge page
   is aligned and contiguous, so base plus offset is the address of each of its 4 KB pages.
   */
  lemma HugeCardPages(p: Platform, block: nat, r: Ring, m: nat, g: Geometry, vaddr: nat)
    requires Supported(p) && block < p.blocks && Aligned(r) && r.Size() == p.large
    requires g.Valid() && g.large.pageShift == 21 && g.large.Offset(vaddr) == 0
    ensures FramesOk(g, CardPages(p, true, block, r, HUGE * m), vaddr, true)
  {
    hide Low, Shr, Nth;
    var fs := CardPages(p, true, block, r, HUGE * m);
    assert Pow2(9) == HUGE && Pow2(21) == HUGE * PAGE_SIZE;
    LowMod(vaddr, 9);
    LowMod(|fs|, 9);
    assert InRange(fs) by {
      forall i | 0 <= i < |fs| ensures Low(fs[i], PAGE_SHIFT) == 0 && fs[i] < Pow2(TLB_PADDR_RANGE) {
        NthInRing(r, i);
        AddressRecovered(p, true, block, Nth(r, i));
        assert Pow2(PAGE_SHIFT) == PAGE_SIZE;
        LowMod(fs[i], PAGE_SHIFT);
      }
    }
    forall i: nat | i < |fs| && g.large.Offset(i) == 0 ensures CanCoalesce(g, fs, vaddr, i) {
      HugeGroup(p, block, r, m, g, vaddr, i);
    }
  }

  lemma NthInRing(r: Ring, k: nat)
    requires r.Valid()
    ensures Nth(r, k) < r.Size()
  {
  }

  lemma HugeGroup(p: Platform, block: nat, r: Ring, m: nat, g: Geometry, vaddr: nat, i: nat)
    requires Supported(p) && block < p.blocks && Aligned(r) && r.Size() == p.large
    requires g.Valid() && g.large.pageShift == 21 && g.large.Offset(vaddr) == 0
    requires i < HUGE * m && g.large.Offset(i) == 0
    ensures CanCoalesce(g, CardPages(p, true, block, r, HUGE * m), vaddr, i)
  {
    hide Low, Shr, Nth;
    var fs := CardPages(p, true, block, r, HUGE * m);
    assert Pow2(9) == HUGE && Pow2(21) == HUGE * PAGE_SIZE;
    LowMod(vaddr, 9);
    LowMod(i, 9);
    LowMod(vaddr + i, 9);
    var q := i / HUGE;
    HugeIds(r, m, q, 0);
    assert HUGE * q == i;
    assert Nth(r, i) % HUGE == 0;
    AddressAligned(p, block, Nth(r, i));
    LowMod(fs[i], 21);
    forall j | i <= j < i + HUGE ensures fs[j] == fs[i] + (j - i) * PAGE_SIZE {
      HugeIds(r, m, q, j - i);
    }
  }

  lemma AddressAligned(p: Platform, block: nat, id: nat)
    requires Supported(p) && id % HUGE == 0
    ensures Address(p, true, block, id) % (HUGE * PAGE_SIZE) == 0
  {
  }

  // ---------------------------------------------------------------------------------------------
  // Choosing a block
  // ---------------------------------------------------------------------------------------------

  /**
   The block an allocation goes to, or a negative error code. A caller that names no block needs a
   block with more than `n` free chunks; a caller that names one needs `n` of them.
   */
  method ChooseBlock(free: seq<int>, memBlock: int, n: nat) returns (block: int)
    requires -1 <= memBlock
    ensures memBlock >= |free| && memBlock != -1 ==> block == -EINVAL
    ensures 0 <= memBlock < |free| ==> block == if free[memBlock] < n then -ENOMEM else memBlock
    ensures memBlock == -1 && block >= 0 ==>
              block < |free| && free[block] > n && forall i :: 0 <= i < block ==> free[i] <= n
    ensures memBlock == -1 && block < 0 ==> block == -ENOMEM && forall i :: 0 <= i < |free| ==> free[i] <= n
  {
    if memBlock != -1 && memBlock >= |free| {
      return -EINVAL;
    }
    block := memBlock;
    if block == -1 {
      for i := 0 to |free|
        invariant block == -1 && forall k :: 0 <= k < i ==> free[k] <= n
      {
        if free[i] > n {
          block := i;
          break;
        }
      }
      if block == -1 {
        return -ENOMEM;
      }
    }
    if free[block] < n {
      return -ENOMEM;
    }
  }

  const N_MEM_BLOCKS: nat := 64

  /** `DIV_ROUND_CLOSEST` on non-negative operands. */
  function DivRoundClosest(x: nat, d: nat): nat
    requires d > 0
  {
    (x + d / 2) / d
  }

  /** The HBM block of global channel `ch` out of `n`. */
  function SpacedBlock(n: nat, ch: nat): int {
    DivRoundClosest(N_MEM_BLOCKS * (ch + 1), n + 1) - 1
  }

  /**
   The block is the multiple of `n + 1` nearest to the channel's share of the blocks, the upper one
   of two equally near, counted from zero. No other number is that.
   */
  lemma SpacedNearest(n: nat, ch: nat, block: int)
    ensures block == SpacedBlock(n, ch)
       <==> -(n + 1) <= 2 * (N_MEM_BLOCKS * (ch + 1) - (block + 1) * (n + 1)) < n + 1
  {
    var d := n + 1;
    var x := N_MEM_BLOCKS * (ch + 1);
    var q := (x + d / 2) / d;
    DivBounds(x + d / 2, d, q);
    DivBounds(x + d / 2, d, q + 1);
    Distribute(q, 1, d);
    if block + 1 < q { MulMono(block + 2, q, d); Distribute(block + 1, 1, d); }
    if block + 1 > q { MulMono(q + 1, block + 1, d); }
  }

  lemma SpacedInRange(n: nat, ch: nat)
    requires ch < n <= 63
    ensures 0 <= SpacedBlock(n, ch) < N_MEM_BLOCKS
  {
    var d := n + 1;
    var x := N_MEM_BLOCKS * (ch + 1) + d / 2;
    DivBounds(x, d, 1);
    DivBounds(x, d, N_MEM_BLOCKS + 1);
  }

  /** A quotient reaches `q` exactly when the dividend reaches `q` times the divisor. */
  lemma DivBounds(x: nat, d: nat, q: nat)
    requires d > 0
    ensures x / d >= q <==> x >= q * d
  {
    assert x == (x / d) * d + x % d;
    if x / d >= q { MulMono(q, x / d, d); } else { MulMono(x / d + 1, q, d); Distribute(x / d, 1, d); }
  }

  lemma SpacedNext(n: nat, ch: nat)
    ensures SpacedBlock(n, ch) <= SpacedBlock(n, ch + 1)
    ensures n <= 63 ==> SpacedBlock(n, ch) < SpacedBlock(n, ch + 1)
  {
    var d := n + 1;
    var x := N_MEM_BLOCKS * (ch + 1) + d / 2;
    var q := x / d;
    assert x == q * d + x % d;
    Distribute(q, 1, d);
    DivBounds(x + N_MEM_BLOCKS, d, q);
    DivBounds(x + N_MEM_BLOCKS, d, q + 1);
    assert N_MEM_BLOCKS * (ch + 2) == N_MEM_BLOCKS * (ch + 1) + N_MEM_BLOCKS;
  }

  lemma {:induction false} SpacedGrows(n: nat, a: nat, b: nat)
    requires a < b && n <= 63
    ensures SpacedBlock(n, a) < SpacedBlock(n, b)
  {
    if a + 1 < b { SpacedGrows(n, a, b - 1); }
    SpacedNext(n, b - 1);
  }

  /**
   The spacing formula gives different channels different blocks, in increasing order, exactly when
   there are at most 63 channels.
   */
  lemma SpacedDistinct(n: nat)
    requires n > 0
    ensures (forall a, b :: 0 <= a < b < n ==> SpacedBlock(n, a) < SpacedBlock(n, b)) <==> n <= 63
  {
    if n <= 63 {
      forall a, b | 0 <= a < b < n ensures SpacedBlock(n, a) < SpacedBlock(n, b) { SpacedGrows(n, a, b); }
    } else {
      SpacedCollide(n);
    }
  }

  lemma SpacedCollide(n: nat)
    requires n >= 64
    ensures exists a, b :: 0 <= a < b < n && SpacedBlock(n, a) >= SpacedBlock(n, b)
  {
    if n == 64 {
      assert SpacedBlock(64, 31) == 31 && SpacedBlock(64, 32) == 31;
    } else if forall a, b :: 0 <= a < b < n ==> SpacedBlock(n, a) < SpacedBlock(n, b) {
      SpacedClimb(n, 64);
      var d := n + 1;
      DivBounds(N_MEM_BLOCKS * 65 + d / 2, d, N_MEM_BLOCKS);
    }
  }

  lemma {:induction false} SpacedClimb(n: nat, k: nat)
    requires k < n && forall a, b :: 0 <= a < b < n ==> SpacedBlock(n, a) < SpacedBlock(n, b)
    ensures SpacedBlock(n, k) >= SpacedBlock(n, 0) + k
  {
    if k > 0 { SpacedClimb(n, k - 1); }
  }

  /** The HBM block of channel `ch` of vFPGA `v`, with `nReg` vFPGAs of `nAxi` channels each. */
  function VfpgaBlock(nReg: nat, nAxi: nat, v: nat, ch: nat): int {
    MulNonNeg(nReg, nAxi);
    MulNonNeg(v, nAxi);
    SpacedBlock(nReg * nAxi, v * nAxi + ch)
  }

  predicate Channel(nReg: nat, nAxi: nat, v: nat, ch: nat) { v < nReg && ch < nAxi }

  predicate InOrder(v: nat, ch: nat, v': nat, ch': nat) { v < v' || (v == v' && ch < ch') }

  /** Global channel numbers follow the vFPGAs, and the channels within one. */
  lemma ChannelOrder(nReg: nat, nAxi: nat, v: nat, ch: nat, v': nat, ch': nat)
    requires Channel(nReg, nAxi, v, ch) && Channel(nReg, nAxi, v', ch') && InOrder(v, ch, v', ch')
    ensures 0 <= v * nAxi + ch < v' * nAxi + ch' < nReg * nAxi
  {
    MulNonNeg(v, nAxi);
    if v < v' { MulMono(v + 1, v', nAxi); }
    Distribute(v, 1, nAxi);
    MulMono(v' + 1, nReg, nAxi);
    Distribute(v', 1, nAxi);
  }

  /** Every global channel is a channel of some vFPGA. */
  lemma ChannelOf(nReg: nat, nAxi: nat, a: nat) returns (v: nat, ch: nat)
    requires nAxi > 0 && a < nReg * nAxi
    ensures Channel(nReg, nAxi, v, ch) && v * nAxi + ch == a
  {
    v, ch := a / nAxi, a % nAxi;
    if v >= nReg { MulMono(nReg, v, nAxi); }
  }

  /** Different channels of the vFPGAs have different blocks, in increasing order. */
  ghost predicate BlocksApart(nReg: nat, nAxi: nat) {
    forall v, ch, v', ch' :: Channel(nReg, nAxi, v, ch) && Channel(nReg, nAxi, v', ch') && InOrder(v, ch, v', ch')
      ==> VfpgaBlock(nReg, nAxi, v, ch) < VfpgaBlock(nReg, nAxi, v', ch')
  }

  /** That is so exactly when all vFPGAs together have at most 63 channels. */
  lemma VfpgaBlocksDistinct(nReg: nat, nAxi: nat)
    requires nReg > 0 && nAxi > 0
    ensures BlocksApart(nReg, nAxi) <==> nReg * nAxi <= 63
  {
    hide SpacedBlock;
    MulMono(1, nReg, nAxi);
    var n: nat := nReg * nAxi;
    SpacedDistinct(n);
    if n <= 63 {
      forall v, ch, v', ch' | Channel(nReg, nAxi, v, ch) && Channel(nReg, nAxi, v', ch') && InOrder(v, ch, v', ch')
        ensures VfpgaBlock(nReg, nAxi, v, ch) < VfpgaBlock(nReg, nAxi, v', ch')
      {
        ChannelOrder(nReg, nAxi, v, ch, v', ch');
      }
    } else {
      var a, b :| 0 <= a < b < n && SpacedBlock(n, a) >= SpacedBlock(n, b);
      var v, ch := ChannelOf(nReg, nAxi, a);
      var v', ch' := ChannelOf(nReg, nAxi, b);
      if InOrder(v', ch', v, ch) { ChannelOrder(nReg, nAxi, v', ch', v, ch); }
    }
  }

  // ---------------------------------------------------------------------------------------------
  // The ring in place
  // ---------------------------------------------------------------------------------------------

  /** Every chunk points to the one behind it, the last one to the first. */
  ghost predicate Linked(next: seq<nat>) {
    forall j :: 0 <= j < |next| ==> next[j] == (j + 1) % |next|
  }

  /** One ring of chunks of one block, as `allocate_card_resources` builds it. */
  class Partition {
    var used: array<bool>
    var next: array<nat>
    var alloc: nat
    var freeChunks: int

    ghost predicate Valid()
      reads this, used, next
    {
      used.Length == next.Length && alloc < used.Length && Linked(next[..])
    }

    ghost function R(): Ring
      reads this, used
    {
      Ring(used[..], alloc, freeChunks)
    }

    constructor (n: nat)
      requires n > 0
      ensures Valid() && R() == Fresh(n) && fresh(used) && fresh(next)
    {
      var flags, links := new bool[n], new nat[n];
      for j := 0 to n
        invariant forall i :: 0 <= i < j ==> !flags[i] && links[i] == if i == n - 1 then 0 else i + 1
      {
        flags[j] := false;
        links[j] := if j == n - 1 then 0 else j + 1;
      }
      forall j | 0 <= j < n ensures links[j] == (j + 1) % n {
        if j == n - 1 { ModUnique(n, n, 1, 0); } else { ModUnique(j + 1, n, 0, j + 1); }
      }
      assert forall j :: 0 <= j < n ==> links[..][j] == links[j];
      used, next, alloc, freeChunks := flags, links, 0, n;
    }

    /** The second half of `alloc_card_memory`: check the count, then take chunks off the ring. */
    method Allocate(p: Platform, huge: bool, block: nat, n: nat) returns (ok: bool, pages: seq<nat>)
      requires Valid()
      modifies this, used
      ensures Valid() && used == old(used) && next == old(next)
      ensures ok <==> old(freeChunks) >= n
      ensures ok ==> R() == Take(old(R()), n) && pages == CardPages(p, huge, block, old(R()), n)
      ensures !ok ==> R() == old(R()) && pages == []
    {
      pages := [];
      if freeChunks < n {
        return false, [];
      }
      ghost var r := R();
      for i := 0 to n
        invariant Valid() && used == old(used) && next == old(next)
        invariant R() == Take(r, i) && alloc == Nth(r, i)
        invariant pages == CardPages(p, huge, block, r, i)
      {
        hide Address;
        NthNext(r, i);
        pages := pages + [Address(p, huge, block, alloc)];
        freeChunks := freeChunks - 1;
        used[alloc] := true;
        alloc := next[alloc];
      }
      ok := true;
    }

    /** A chunk that is in use becomes the next one to hand out. */
    method ReleaseOne(id: nat)
      requires Valid() && id < used.Length
      modifies this, used
      ensures Valid() && used == old(used) && next == old(next) && R() == GiveOne(old(R()), id)
    {
      hide Linked;
      ghost var links := next[..];
      if used[id] {
        freeChunks := freeChunks + 1;
        used[id] := false;
        alloc := id;
      }
      assert next[..] == links;
    }

    /** `free_card_memory` on pages of this ring; `ids` are the chunks the addresses stand for. */
    method Release(p: Platform, huge: bool, block: nat, pages: seq<nat>, ghost ids: seq<nat>)
      requires Valid() && Supported(p) && block < p.blocks && used.Length == Chunks(p, huge)
      requires |pages| == |ids| && InRing(R(), ids)
      requires forall k :: 0 <= k < |pages| ==> pages[k] == Address(p, huge, block, ids[k])
      modifies this, used
      ensures Valid() && used == old(used) && next == old(next)
      ensures R() == Give(old(R()), ids)
    {
      hide Address, Supported, BlockOf, IdOf, Give, GiveOne, Linked;
      ghost var r := R();
      var i := |pages|;
      assert ids[..i] == ids;
      while i > 0
        invariant 0 <= i <= |pages| && Valid() && used == old(used) && next == old(next)
        invariant InRing(R(), ids) && Give(r, ids) == Give(R(), ids[..i])
      {
        i := i - 1;
        AddressRecovered(p, huge, block, ids[i]);
        var id := IdOf(p, huge, BlockOf(p, pages[i]), pages[i]);
        GiveLast(R(), ids, i);
        ReleaseOne(id);
      }
      GiveNothing(R());
    }
  }

  lemma GiveLast(r: Ring, ids: seq<nat>, i: nat)
    requires r.Valid() && InRing(r, ids) && i < |ids|
    ensures Give(r, ids[..i + 1]) == Give(GiveOne(r, ids[i]), ids[..i])
  {
    assert ids[..i + 1][..i] == ids[..i];
  }

  lemma GiveNothing(r: Ring)
    requires r.Valid()
    ensures Give(r, []) == r
  {
  }
}
