/**
 Which pages the TLBs hold after the driver's calls. Mapping a window maps its pages up to the limit
 per call, unmapping a buffer takes away the entries of its pages and no others, and so a fault
 leaves its window mapped, and an offload or sync every buffer it moves.
 */
module Coverage {
  import opened Bits
  import opened Errno
  import opened Tlb
  import opened TlbMapping
  import opened BufferTable
  import opened Wrappers
  import opened Dma
  import opened VirtualMemory
  import opened RangeMoves
  import opened MemoryManager

  /** Some entry leads from the page into the buffer: for its thread and process, to its current frame. */
  ghost predicate MappedFor(c: Config, tlb: set<Entry>, b: Buffer, p: nat)
    requires c.Valid()
  {
    exists e :: e in tlb && Covers(c.g, e, p) && Backs(c, b, e)
  }

  // ---------------------------------------------------------------------------------------------
  // What a map call maps
  // ---------------------------------------------------------------------------------------------

  /** Steps that tile a range write different entries. */
  lemma {:induction false} EntryCount(g: Geometry, fs: seq<nat>, vaddr: nat, steps: seq<Step>, m: nat, o: Owner)
    requires g.Valid() && FramesOk(g, fs, vaddr, false) && Tiles(g, steps, 0, m)
    requires forall s :: s in steps ==> Sound(g, fs, vaddr, s)
    ensures |StepEntries(g, fs, vaddr, steps, o)| == |steps|
    decreases |steps|
  {
    hide Low, Shr, Pow2, FramesOk, Sound, Covers;
    if steps == [] {
      assert StepEntries(g, fs, vaddr, steps, o) == {};
    } else {
      var n := |steps| - 1;
      var s := steps[n];
      var mid := TilesPrefix(g, steps, 0, m, n);
      TilesLast(g, steps, 0, m, mid);
      EntryCount(g, fs, vaddr, steps[..n], mid, o);
      OneMoreEntry(g, fs, vaddr, steps, mid, o);
    }
  }

  /** The last step of a tiling begins where the others end. */
  lemma {:induction false} TilesLast(g: Geometry, steps: seq<Step>, from: nat, to: nat, mid: nat)
    requires g.Valid() && steps != [] && Tiles(g, steps, from, to) && Tiles(g, steps[..|steps| - 1], from, mid)
    ensures steps[|steps| - 1].at == mid
  {
    if |steps| > 1 {
      assert steps[..|steps| - 1][1..] == steps[1..][..|steps| - 2];
      TilesLast(g, steps[1..], from + g.Span(steps[0].huge), to, mid);
    }
  }

  lemma OneMoreEntry(g: Geometry, fs: seq<nat>, vaddr: nat, steps: seq<Step>, mid: nat, o: Owner)
    requires g.Valid() && FramesOk(g, fs, vaddr, false) && steps != [] && steps[|steps| - 1].at == mid
    requires Tiles(g, steps[..|steps| - 1], 0, mid) && forall s :: s in steps ==> Sound(g, fs, vaddr, s)
    ensures |StepEntries(g, fs, vaddr, steps, o)| == |StepEntries(g, fs, vaddr, steps[..|steps| - 1], o)| + 1
  {
    hide Low, Shr, Pow2, FramesOk, CanCoalesce, Tiles, StepEntries;
    var n := |steps| - 1;
    var s, es := steps[n], StepEntries(g, fs, vaddr, steps[..n], o);
    assert Sound(g, fs, vaddr, s);
    var e := StepEntry(g, fs, vaddr, s, o);
    assert Covers(g, e, vaddr + mid);
    hide StepEntry;
    if e in es { EntryExact(g, fs, vaddr, steps[..n], mid, o, e, vaddr + mid); }
    AddStepEntry(g, fs, vaddr, steps[..n], s, o, {});
    assert steps == steps[..n] + [s];
    assert StepEntries(g, fs, vaddr, steps, o) == es + {e};
  }

  /**
   A window of a regular buffer: the pages that get an entry are those of a prefix, and that is the
   whole window unless the call wrote as many entries as it may.
   */
  lemma RegularReach(c: Config, b: Buffer, w: Window) returns (end: nat)
    requires c.Valid() && BufferOk(c, b) && WindowOk(c, b, w) && !b.huge
    ensures w.vaddr <= end <= w.End()
    ensures forall p: nat :: MappedFor(c, WindowEntries(c, b, w), b, p) <==> w.vaddr <= p < end
    ensures |WindowEntries(c, b, w)| <= MAX_N_MAP_PAGES
    ensures end < w.End() ==> |WindowEntries(c, b, w)| == MAX_N_MAP_PAGES
    ensures end < w.End() ==> w.vaddr + MAX_N_MAP_PAGES <= end
  {
    hide Low, Shr, Pow2, Walk, Covers, Backs, CanCoalesce, NonZero;
    var g, fs, o := c.g, WindowFrames(b, w), Owner(b.host, b.ctid, c.hpid[b.ctid]);
    var steps := MapSteps(g, fs, w.vaddr, false);
    assert FramesOk(g, fs, w.vaddr, false);
    var m := MapReach(g, fs, w.vaddr, false);
    assert |steps| <= MAX_N_MAP_PAGES;
    hide Sound, Tiles, MapSteps, FramesOk;
    EntryCount(g, fs, w.vaddr, steps, m, o);
    TilesLength(g, steps, 0, m);
    end := w.vaddr + m;
    var es := WindowEntries(c, b, w);
    forall p: nat ensures MappedFor(c, es, b, p) <==> w.vaddr <= p < end {
      if w.vaddr <= p < end {
        EntryFound(g, fs, w.vaddr, steps, m, o, p);
        var e :| e in es && Covers(g, e, p);
        WindowEntriesBack(c, b, w, e);
      }
      if e :| e in es && Covers(c.g, e, p) && Backs(c, b, e) { EntryExact(g, fs, w.vaddr, steps, m, o, e, p); }
    }
  }

  /** Every step covers a page at least. */
  lemma {:induction false} TilesLength(g: Geometry, steps: seq<Step>, from: nat, to: nat)
    requires g.Valid() && Tiles(g, steps, from, to)
    ensures from + |steps| <= to
  {
    if steps != [] { TilesLength(g, steps[1..], from + g.Span(steps[0].huge), to); }
  }

  /** The steps of a huge walk: one for every huge page's worth of pages, from the page it starts at. */
  lemma {:induction false} HugeWalkAt(g: Geometry, fs: seq<nat>, vaddr: nat, i: nat, k: nat)
    requires g.Valid()
    ensures k < |Walk(g, fs, vaddr, true, i)| <==> i + k * g.PagesInHuge() < |fs|
    ensures k < |Walk(g, fs, vaddr, true, i)| ==> Walk(g, fs, vaddr, true, i)[k] == Step(i + k * g.PagesInHuge(), true)
    decreases |fs| - i
  {
    hide Low, Shr, Pow2, CanCoalesce;
    var h := g.PagesInHuge();
    MulNonNeg(k, h);
    if i < |fs| {
      assert Walk(g, fs, vaddr, true, i) == [Step(i, true)] + Walk(g, fs, vaddr, true, i + h);
      if k > 0 {
        HugeWalkAt(g, fs, vaddr, i + h, k - 1);
        Distribute(k - 1, 1, h);
      }
    }
  }

  /** How many huge pages behind the first one of a window a page lies. */
  ghost function HugeIndex(g: Geometry, w: Window, p: nat): int
    requires g.Valid()
  {
    g.large.Vpn(p) - g.large.Vpn(w.vaddr)
  }

  /** The huge page of the page gets its turn: within the limit, and before the loop has counted off the window. */
  ghost predicate HugeTurn(g: Geometry, w: Window, p: nat)
    requires g.Valid()
  {
    HugeIndex(g, w, p) < MAX_N_MAP_PAGES && HugeIndex(g, w, p) * g.PagesInHuge() < w.n
  }

  lemma HugeStepVpn(g: Geometry, page: nat, k: nat)
    requires g.Valid()
    ensures 0 <= k * g.PagesInHuge() && g.large.Vpn(page + k * g.PagesInHuge()) == g.large.Vpn(page) + k
  {
    MulNonNeg(k, g.PagesInHuge());
    ShrAdd(page, k, g.large.pageShift - PAGE_SHIFT);
  }

  /** The entries of a window of a huge buffer: one for every step. */
  lemma HugeEntry(c: Config, b: Buffer, w: Window, k: nat)
    requires c.Valid() && BufferOk(c, b) && WindowOk(c, b, w) && b.huge
    requires k < MAX_N_MAP_PAGES && k * c.g.PagesInHuge() < w.n
    ensures exists e :: e in WindowEntries(c, b, w) && e.huge && e.vpn == c.g.large.Vpn(w.vaddr) + k
  {
    hide Low, Shr, Pow2, CanCoalesce, FramesOk, NonZero;
    var g, fs, o := c.g, WindowFrames(b, w), Owner(b.host, b.ctid, c.hpid[b.ctid]);
    HugeWalkAt(g, fs, w.vaddr, 0, k);
    HugeStepVpn(g, w.vaddr, k);
    var s := Step(k * g.PagesInHuge(), true);
    assert MapSteps(g, fs, w.vaddr, true)[k] == s;
    hide Walk, MapSteps;
    assert StepEntry(g, fs, w.vaddr, s, o) in WindowEntries(c, b, w);
  }

  /** The steps of a map call on a huge buffer. */
  lemma HugeStep(g: Geometry, fs: seq<nat>, vaddr: nat, k: nat)
    requires g.Valid() && k < |MapSteps(g, fs, vaddr, true)|
    ensures k < MAX_N_MAP_PAGES && 0 <= k * g.PagesInHuge() < |fs|
    ensures MapSteps(g, fs, vaddr, true)[k] == Step(k * g.PagesInHuge(), true)
  {
    hide Low, Shr, Pow2, CanCoalesce, Walk;
    HugeWalkAt(g, fs, vaddr, 0, k);
    MulNonNeg(k, g.PagesInHuge());
  }

  lemma HugeEntryStep(c: Config, b: Buffer, w: Window, e: Entry) returns (k: nat)
    requires c.Valid() && BufferOk(c, b) && WindowOk(c, b, w) && b.huge && e in WindowEntries(c, b, w)
    ensures k < MAX_N_MAP_PAGES && k * c.g.PagesInHuge() < w.n && e.huge && e.vpn == c.g.large.Vpn(w.vaddr) + k
  {
    hide Low, Shr, Pow2, FramesOk, NonZero, MapSteps;
    var g, fs, o := c.g, WindowFrames(b, w), Owner(b.host, b.ctid, c.hpid[b.ctid]);
    var steps := MapSteps(g, fs, w.vaddr, true);
    var s :| s in steps && s.at < |fs| && e == StepEntry(g, fs, w.vaddr, s, o);
    k :| 0 <= k < |steps| && steps[k] == s;
    HugeStep(g, fs, w.vaddr, k);
    HugeStepVpn(g, w.vaddr, k);
  }

  /**
   A window of a huge buffer, wherever it begins: a page of it gets an entry exactly when the huge
   page it lies in gets its turn.
   */
  lemma HugeReach(c: Config, b: Buffer, w: Window, p: nat)
    requires c.Valid() && BufferOk(c, b) && WindowOk(c, b, w) && b.huge && w.vaddr <= p < w.End()
    ensures MappedFor(c, WindowEntries(c, b, w), b, p) <==> HugeTurn(c.g, w, p)
  {
    hide Low, Shr, Pow2, FramesOk, NonZero, WindowEntries, Backs;
    var es, k := WindowEntries(c, b, w), HugeIndex(c.g, w, p);
    ShrMono(w.vaddr, p, c.g.large.pageShift - PAGE_SHIFT);
    if HugeTurn(c.g, w, p) {
      HugeEntry(c, b, w, k);
      var e :| e in es && e.huge && e.vpn == c.g.large.Vpn(w.vaddr) + k;
      WindowEntriesBack(c, b, w, e);
      assert Covers(c.g, e, p);
    }
    if e :| e in es && Covers(c.g, e, p) && Backs(c, b, e) {
      var i := HugeEntryStep(c, b, w, e);
    }
  }

  /** `end` is how far a map call for the window gets, and why not further. */
  ghost predicate Reach(c: Config, b: Buffer, w: Window, end: nat)
    requires c.Valid() && BufferOk(c, b) && WindowOk(c, b, w)
  {
    && (w.n > 0 ==> w.vaddr < end)
    && (forall p: nat :: w.vaddr <= p < w.End() ==> (MappedFor(c, WindowEntries(c, b, w), b, p) <==> p < end))
    && (!b.huge ==> |WindowEntries(c, b, w)| <= MAX_N_MAP_PAGES)
    && (!b.huge && end < w.End() ==> |WindowEntries(c, b, w)| == MAX_N_MAP_PAGES <= end - w.vaddr)
    && (b.huge ==> forall p: nat :: w.vaddr <= p < w.End() ==> (p < end <==> HugeTurn(c.g, w, p)))
  }

  lemma HugeTurnDown(g: Geometry, w: Window, p: nat, q: nat)
    requires g.Valid() && w.vaddr <= p <= q && HugeTurn(g, w, q)
    ensures HugeTurn(g, w, p)
  {
    hide Low, Shr, Pow2;
    ShrMono(p, q, g.large.pageShift - PAGE_SHIFT);
    MulMono(HugeIndex(g, w, p), HugeIndex(g, w, q), g.PagesInHuge());
  }

  /** Every map call gets somewhere, at least past the first page. */
  lemma WindowReach(c: Config, b: Buffer, w: Window) returns (end: nat)
    requires c.Valid() && BufferOk(c, b) && WindowOk(c, b, w)
    ensures Reach(c, b, w, end)
  {
    hide BufferOk, WindowEntries, MappedFor, HugeTurn;
    if !b.huge {
      end := RegularReach(c, b, w);
    } else {
      end := w.vaddr;
      while end < w.End() && HugeTurn(c.g, w, end)
        invariant w.vaddr <= end <= w.End() && forall p: nat :: w.vaddr <= p < end ==> HugeTurn(c.g, w, p)
      {
        end := end + 1;
      }
      if w.n > 0 { FirstTurn(c.g, w); }
      forall p: nat | w.vaddr <= p < w.End()
        ensures (p < end <==> HugeTurn(c.g, w, p)) && (MappedFor(c, WindowEntries(c, b, w), b, p) <==> p < end)
      {
        HugeReach(c, b, w, p);
        if p >= end && HugeTurn(c.g, w, p) { HugeTurnDown(c.g, w, end, p); }
      }
    }
  }

  lemma FirstTurn(g: Geometry, w: Window)
    requires g.Valid() && w.n > 0
    ensures HugeTurn(g, w, w.vaddr)
  {
  }

  /**
   When the whole window is mapped: a regular one if it has no more pages than a call may write
   entries; one of a huge buffer exactly when its last page gets its turn, as it does if the window
   begins at a huge page and has no more of them than the limit.
   */
  lemma WholeWindow(c: Config, b: Buffer, w: Window, end: nat)
    requires c.Valid() && BufferOk(c, b) && WindowOk(c, b, w) && Reach(c, b, w, end) && w.n > 0
    ensures !b.huge && w.n <= MAX_N_MAP_PAGES ==> end >= w.End()
    ensures b.huge ==> (end >= w.End() <==> HugeTurn(c.g, w, w.End() - 1))
    ensures b.huge && c.g.large.Offset(w.vaddr) == 0 && w.n <= MAX_N_MAP_PAGES * c.g.PagesInHuge() ==> end >= w.End()
  {
    hide BufferOk, WindowEntries, MappedFor, HugeTurn;
    if b.huge && c.g.large.Offset(w.vaddr) == 0 && w.n <= MAX_N_MAP_PAGES * c.g.PagesInHuge() { LastTurn(c.g, w); }
  }

  lemma LastTurn(g: Geometry, w: Window)
    requires g.Valid() && w.n > 0 && g.large.Offset(w.vaddr) == 0 && w.n <= MAX_N_MAP_PAGES * g.PagesInHuge()
    ensures HugeTurn(g, w, w.End() - 1)
  {
    hide Low, Shr, Pow2;
    var o, h, last := g.large.pageShift - PAGE_SHIFT, g.PagesInHuge(), w.End() - 1;
    var k := HugeIndex(g, w, last);
    ShrLow(w.vaddr, o);
    ShrLow(last, o);
    Distribute(k, Shr(w.vaddr, o), h);
    if k >= MAX_N_MAP_PAGES { MulMono(MAX_N_MAP_PAGES, k, h); }
  }

  /**
   A window that begins inside a huge page can miss its end: of two pages around the first boundary
   inside a huge buffer the second gets no entry.
   */
  lemma InsideHugeUnmapped(c: Config, b: Buffer)
    requires c.Valid() && BufferOk(c, b) && b.huge && c.g.PagesInHuge() > 1 && b.Pages() > c.g.PagesInHuge()
    ensures var w := Window(b.vaddr + c.g.PagesInHuge() - 1, 2);
            WindowOk(c, b, w) && !MappedFor(c, WindowEntries(c, b, w), b, w.vaddr + 1)
  {
    hide Low, Shr, Pow2, WindowEntries, MappedFor, NonZero, InRange, GroupsOk;
    var h := c.g.PagesInHuge();
    var w := Window(b.vaddr + h - 1, 2);
    var o := c.g.large.pageShift - PAGE_SHIFT;
    var q := Shr(b.vaddr, o);
    ShrLow(b.vaddr, o);
    Unique(b.vaddr + h - 1, o, q, h - 1);
    Distribute(q, 1, h);
    Unique(b.vaddr + h, o, q + 1, 0);
    assert HugeIndex(c.g, w, w.vaddr + 1) == 1;
    HugeReach(c, b, w, w.vaddr + 1);
  }

  // ---------------------------------------------------------------------------------------------
  // What unmapping leaves
  // ---------------------------------------------------------------------------------------------

  /** The entry has its eye on a page of the buffer, for the same process. */
  ghost predicate Collides(c: Config, b: Buffer, e: Entry)
    requires c.Valid() && b.ctid < |c.hpid|
  {
    e.hpid == c.hpid[b.ctid] && exists p: nat :: b.Contains(p) && Covers(c.g, e, p)
  }

  /** Unmapping a buffer leaves the entries of other threads' buffers, unless they are of the same process and pages. */
  lemma OthersSurvive(c: Config, s: State, i: nat, k: nat, e: Entry)
    requires c.Valid() && Ok(c, s) && i < |s.buffers| && k < |s.buffers| && i != k
    requires e in s.tlb && Backs(c, s.buffers[k], e)
    ensures s.buffers[i].ctid < |c.hpid| && s.buffers[k].ctid < |c.hpid|
    ensures e in Cleared(c, s.tlb, s.buffers[i]) <==> !Collides(c, s.buffers[i], e)
    ensures Collides(c, s.buffers[i], e) ==> s.buffers[i].ctid != s.buffers[k].ctid
    ensures Collides(c, s.buffers[i], e) ==> c.hpid[s.buffers[i].ctid] == c.hpid[s.buffers[k].ctid]
  {
    hide FramesOk, NonZero, Covers, Translate, Cleared, MoveOk;
    ClearedExact(c, s.tlb, s.buffers[i], e);
    if p: nat :| s.buffers[i].Contains(p) && Covers(c.g, e, p) {
      if s.buffers[i].ctid == s.buffers[k].ctid { OneHolder(c, s, i, k, (e.ctid, p)); }
    }
  }

  /** Two threads of one process with a buffer on the same page: unmapping the one unmaps the other. */
  lemma ThreadsCollideExample()
    ensures var c := Config(Geometry(TlbMeta(false, 12, 10, 26, 32), TlbMeta(true, 21, 6, 21, 23)), [0, 0]);
            var a := Buffer(1, [PAGE_SIZE], [PAGE_SIZE], false, 0, HOST_ACCESS);
            var e := Entry(false, 1, 1, HOST_ACCESS, 1, 0);
            c.Valid() && Backs(c, a.(ctid := 1), e) && e !in Cleared(c, {e}, a)
  {
    var c := Config(Geometry(TlbMeta(false, 12, 10, 26, 32), TlbMeta(true, 21, 6, 21, 23)), [0, 0]);
    var a := Buffer(1, [PAGE_SIZE], [PAGE_SIZE], false, 0, HOST_ACCESS);
    var e := Entry(false, 1, 1, HOST_ACCESS, 1, 0);
    ExampleTwo(c);
    assert forall p: nat :: Covers(c.g, e, p) <==> p == 1;
    assert Translate(c.g, e, 1) == PAGE_SIZE;
    assert a.Contains(1);
    ClearedExact(c, {e}, a, e);
  }

  lemma ExampleTwo(c: Config)
    requires c == Config(Geometry(TlbMeta(false, 12, 10, 26, 32), TlbMeta(true, 21, 6, 21, 23)), [0, 0])
    ensures c.Valid() && Pow2(12) == PAGE_SIZE && Pow2(0) == 1
  {
    assert Pow2(4) == 16 && Pow2(8) == 256;
    assert Pow2(12) == PAGE_SIZE;
  }

  /** A page of another buffer of the thread, or of another process, stays mapped. */
  lemma StaysMapped(c: Config, s: State, i: nat, k: nat, p: nat)
    requires c.Valid() && Ok(c, s) && i < |s.buffers| && k < |s.buffers| && i != k
    requires s.buffers[i].ctid < |c.hpid| && s.buffers[k].ctid < |c.hpid|
    requires s.buffers[i].ctid == s.buffers[k].ctid || c.hpid[s.buffers[i].ctid] != c.hpid[s.buffers[k].ctid]
    requires MappedFor(c, s.tlb, s.buffers[k], p)
    ensures MappedFor(c, Cleared(c, s.tlb, s.buffers[i]), s.buffers[k], p)
  {
    hide Ok, Backs, Covers, Cleared, Collides;
    var e :| e in s.tlb && Covers(c.g, e, p) && Backs(c, s.buffers[k], e);
    OthersSurvive(c, s, i, k, e);
  }

  // ---------------------------------------------------------------------------------------------
  // After a fault
  // ---------------------------------------------------------------------------------------------

  /** The pages of the window up to `end` are mapped to the buffer. */
  ghost predicate MappedUpTo(c: Config, tlb: set<Entry>, b: Buffer, w: Window, end: nat)
    requires c.Valid()
  {
    forall p: nat :: w.vaddr <= p < w.End() && p < end ==> MappedFor(c, tlb, b, p)
  }

  lemma ReachMaps(c: Config, base: set<Entry>, b: Buffer, w: Window) returns (end: nat)
    requires c.Valid() && BufferOk(c, b) && WindowOk(c, b, w)
    ensures Reach(c, b, w, end) && MappedUpTo(c, base + WindowEntries(c, b, w), b, w, end)
  {
    hide BufferOk, WindowEntries, HugeTurn, Covers, Backs;
    end := WindowReach(c, b, w);
    var es := WindowEntries(c, b, w);
    forall p: nat | w.vaddr <= p < w.End() && p < end ensures MappedFor(c, base + es, b, p) {
      assert MappedFor(c, es, b, p);
      var e :| e in es && Covers(c.g, e, p) && Backs(c, b, e);
      assert e in base + es;
    }
  }

  lemma PlacedMaps(c: Config, s: State, i: nat, side: nat, w: Window, tlb: set<Entry>) returns (end: nat)
    requires c.Valid() && i < |s.buffers| && BufferOk(c, s.buffers[i]) && WindowOk(c, s.buffers[i], w)
    requires side == HOST_ACCESS || side == CARD_ACCESS
    ensures var s' := Placed(c, s, i, side, w, tlb);
            && s'.buffers == s.buffers[i := s.buffers[i].(host := side)]
            && BufferOk(c, s'.buffers[i]) && WindowOk(c, s'.buffers[i], w)
            && Reach(c, s'.buffers[i], w, end) && MappedUpTo(c, s'.tlb, s'.buffers[i], w, end)
  {
    hide BufferOk, WindowEntries, Reach, MappedUpTo, Migrated;
    var b := s.buffers[i].(host := side);
    SideOk(c, s.buffers[i], side, w);
    end := ReachMaps(c, tlb, b, w);
  }

  /** The side a fault asks for; a miss takes every stream but the card's for the host's. */
  function SideOf(f: Fault): nat { if f.stream == CARD_ACCESS then CARD_ACCESS else HOST_ACCESS }

  /** The buffer that serves a fault: its thread's, on the side the fault comes from. */
  ghost predicate Serves(c: Config, s: State, f: Fault, w: Window, i: nat)
    requires c.Valid()
  {
    && i < |s.buffers| && s.buffers[i].ctid == f.ctid && BufferOk(c, s.buffers[i]) && WindowOk(c, s.buffers[i], w)
    && s.buffers[i].host == SideOf(f)
  }

  lemma HitMaps(c: Config, s: State, f: Fault, i: nat, w: Window, s': State) returns (end: nat)
    requires c.Valid() && Ok(c, s) && i < |s.buffers| && WindowOk(c, s.buffers[i], w) && s.buffers[i].ctid == f.ctid
    requires HitResult(c, s, f, i, w, s', 0)
    ensures Serves(c, s', f, w, i) && Reach(c, s'.buffers[i], w, end)
    ensures MappedUpTo(c, s'.tlb, s'.buffers[i], w, end)
  {
    hide FramesOk, NonZero, TlbOk, MoveOk, WindowEntries, Reach, MappedUpTo, Placed, Cleared;
    if s.buffers[i].host == f.stream {
      end := ReachMaps(c, s.tlb, s.buffers[i], w);
    } else {
      end := PlacedMaps(c, s, i, f.stream, w, Cleared(c, s.tlb, s.buffers[i]));
    }
  }

  lemma MissMaps(c: Config, s: State, f: Fault, gr: Option<Grant>, w: Window, s': State, ret: int) returns (end: nat)
    requires c.Valid() && Ok(c, s) && s.move.None? && (gr.Some? ==> GrantOk(c, gr.value, w, f.huge, f.ctid))
    requires MissResult(c, s, f, gr, w, s', ret) && ret != -ENOMEM
    ensures Serves(c, s', f, w, 0) && Reach(c, s'.buffers[0], w, end)
    ensures MappedUpTo(c, s'.tlb, s'.buffers[0], w, end)
  {
    hide FramesOk, NonZero, TlbOk, MoveOk, WindowEntries, Reach, MappedUpTo, Placed;
    var b := NewBuffer(gr.value, w, f.huge, f.ctid);
    var s1 := s.(buffers := [b] + s.buffers);
    if f.stream != CARD_ACCESS {
      end := ReachMaps(c, s1.tlb, b, w);
    } else {
      end := PlacedMaps(c, s1, 0, CARD_ACCESS, w, s1.tlb);
    }
  }

  /** The table after an answered fault: a hit leaves its buffer on the side asked for, a miss adds one in front. */
  lemma FaultTable(c: Config, s: State, f: Fault, gr: Option<Grant>, hit: Option<nat>, w: Window, s': State, ret: int)
    requires c.Valid() && Ok(c, s) && s.move.None? && FaultStep(c, s, f, gr, hit, w, s', ret)
    requires ret == 0 || ret == BUFF_NEEDS_EXP_SYNC_RET_CODE
    ensures hit.Some? ==>
              && hit.value < |s.buffers|
              && s'.buffers == s.buffers[hit.value := s.buffers[hit.value].(host := SideOf(f))]
    ensures hit.None? ==>
              && gr.Some?
              && var g := gr.value;
                 s'.buffers == [Buffer(w.vaddr, g.hpages, g.cpages, f.huge, f.ctid, SideOf(f))] + s.buffers
  {
    hide BufferOk, TlbOk, MoveOk, FaultWindow, Answer, WindowEntries, Cleared, Migrated;
  }

  /** A fault that is answered leaves its window mapped, as far as a map call gets, for the side it came from. */
  lemma FaultMaps(c: Config, s: State, f: Fault, gr: Option<Grant>, hit: Option<nat>, w: Window, s': State, ret: int)
    returns (i: nat, end: nat)
    requires c.Valid() && Ok(c, s) && s.move.None? && FaultStep(c, s, f, gr, hit, w, s', ret)
    requires ret == 0 || ret == BUFF_NEEDS_EXP_SYNC_RET_CODE
    ensures Serves(c, s', f, w, i) && Reach(c, s'.buffers[i], w, end)
    ensures MappedUpTo(c, s'.tlb, s'.buffers[i], w, end)
  {
    hide BufferOk, TlbOk, MoveOk, FaultWindow, Reach, MappedUpTo, GrantOk, Placed, WithWindow;
    if hit.Some? {
      i := hit.value;
      end := HitMaps(c, s, f, i, w, s');
    } else {
      i := 0;
      end := MissMaps(c, s, f, gr, w, s', ret);
    }
  }

  // ---------------------------------------------------------------------------------------------
  // After an offload or sync
  // ---------------------------------------------------------------------------------------------

  /** All pages of a buffer. */
  function AllPages(b: Buffer): (w: Window)
    ensures forall p: nat :: w.vaddr <= p < w.End() <==> b.Contains(p)
  {
    Window(b.vaddr, b.Pages())
  }

  /** Every page of the buffer is mapped to it, as far as one map call gets. */
  ghost predicate FullyMapped(c: Config, tlb: set<Entry>, b: Buffer, end: nat)
    requires c.Valid()
  {
    && BufferOk(c, b) && WindowOk(c, b, AllPages(b))
    && Reach(c, b, AllPages(b), end) && MappedUpTo(c, tlb, b, AllPages(b), end)
  }

  lemma ForcedMaps(c: Config, s: State, i: nat, side: nat) returns (end: nat)
    requires c.Valid() && i < |s.buffers| && BufferOk(c, s.buffers[i]) && (side == HOST_ACCESS || side == CARD_ACCESS)
    ensures var s' := Forced(c, s, i, side); FullyMapped(c, s'.tlb, s'.buffers[i], end)
  {
    hide FramesOk, NonZero, Reach, MappedUpTo, Placed, Cleared;
    NewWindowOk(c, s.buffers[i], Whole(s.buffers[i]));
    end := PlacedMaps(c, s, i, side, Whole(s.buffers[i]), Before(c, s, i, false));
  }

  lemma ForcedKeepsMapped(c: Config, s: State, i: nat, side: nat, k: nat, p: nat)
    requires c.Valid() && Ok(c, s) && i < |s.buffers| && k < |s.buffers| && i != k
    requires (side == HOST_ACCESS || side == CARD_ACCESS) && s.buffers[i].ctid == s.buffers[k].ctid
    requires MappedFor(c, s.tlb, s.buffers[k], p)
    ensures BufferOk(c, s.buffers[i])
    ensures var s' := Forced(c, s, i, side); s'.buffers[k] == s.buffers[k] && MappedFor(c, s'.tlb, s'.buffers[k], p)
  {
    hide FramesOk, NonZero, TlbOk, MoveOk, Backs, Covers, Cleared, WindowEntries, Migrated;
    assert BufferOk(c, s.buffers[i]) && BufferOk(c, s.buffers[k]);
    StaysMapped(c, s, i, k, p);
    var e :| e in Cleared(c, s.tlb, s.buffers[i]) && Covers(c.g, e, p) && Backs(c, s.buffers[k], e);
    assert e in Forced(c, s, i, side).tlb;
  }

  /** All listed buffers belong to one thread. */
  ghost predicate OneThread(bs: seq<Buffer>, moves: seq<nat>, ctid: nat) {
    forall k :: 0 <= k < |moves| ==> moves[k] < |bs| && bs[moves[k]].ctid == ctid
  }

  /** After an offload or sync every buffer it moved is mapped on the requested side, as far as a map call gets. */
  lemma {:induction false} ForcedAllMaps(c: Config, s: State, moves: seq<nat>, side: nat, ctid: nat, k: nat)
    returns (end: nat)
    requires c.Valid() && Ok(c, s) && s.move.None? && (side == HOST_ACCESS || side == CARD_ACCESS)
    requires InTable(moves, |s.buffers|) && OneThread(s.buffers, moves, ctid) && k in moves
    ensures AllOk(c, s.buffers)
    ensures var s' := ForcedAll(c, s, moves, side);
            s'.buffers[k] == s.buffers[k].(host := side) && FullyMapped(c, s'.tlb, s'.buffers[k], end)
    decreases |moves|
  {
    hide BufferOk, Ok, Forced, Reach, MappedFor;
    OkAll(c, s);
    var n := |moves| - 1;
    assert moves == moves[..n] + [moves[n]];
    ForcedAllOk(c, s, moves[..n], side);
    var s1 := ForcedAll(c, s, moves[..n], side);
    ForcedAllSides(c, s, moves, side, k);
    ForcedAllSides(c, s, moves[..n], side, k);
    ForcedAllSides(c, s, moves[..n], side, moves[n]);
    if k == moves[n] {
      end := ForcedMaps(c, s1, k, side);
    } else {
      end := ForcedAllMaps(c, s, moves[..n], side, ctid, k);
      var w, s' := AllPages(s1.buffers[k]), ForcedAll(c, s, moves, side);
      forall p: nat | w.vaddr <= p < w.End() && p < end ensures MappedFor(c, s'.tlb, s1.buffers[k], p) {
        ForcedKeepsMapped(c, s1, moves[n], side, k, p);
      }
    }
  }

  lemma {:induction false} TakenOneThread(t: Table, bucket: nat, i: nat, v: nat)
    requires i <= |t.bs|
    ensures OneThread(t.bs, t.Taken(bucket, i, v), t.ctid)
    decreases |t.bs| - i
  {
    if i < |t.bs| {
      TakenOneThread(t, bucket, i + 1, if t.InChain(i, bucket) && t.bs[i].Contains(v) then v + t.bs[i].Pages() else v);
    }
  }

  lemma {:induction false} LoopOneThread(t: Table, v: nat, last: nat)
    requires t.Ends(v, last)
    ensures OneThread(t.bs, t.Loop(v, last), t.ctid)
    decreases last + 1 - v
  {
    if v <= last {
      LoopOneThread(t, t.Pass(t.hash(v), 0, v), last);
      TakenOneThread(t, t.hash(v), 0, v);
    }
  }

  /** The same for a request by its range: every buffer that a tiled range takes is mapped afterwards. */
  lemma TiledRangeMapped(c: Config, s: State, t: Table, tile: seq<nat>, v: nat, last: nat, side: nat, m: nat)
    returns (end: nat)
    requires c.Valid() && Ok(c, s) && s.move.None? && t.bs == s.buffers && (side == HOST_ACCESS || side == CARD_ACCESS)
    requires Adjacent(t, tile) && v == t.bs[tile[0]].vaddr && last < t.bs[tile[|tile| - 1]].End()
    requires m < |tile| && t.bs[tile[m]].vaddr <= last
    ensures AllOk(c, s.buffers) && t.Ends(v, last) && InTable(t.Loop(v, last), |s.buffers|)
    ensures var s', k := ForcedAll(c, s, t.Loop(v, last), side), tile[m];
            s'.buffers[k] == s.buffers[k].(host := side) && FullyMapped(c, s'.tlb, s'.buffers[k], end)
  {
    hide BufferOk, TlbOk, MoveOk, ForcedAll, FullyMapped;
    assert Disjoint(t.bs, t.ctid) by { TableDisjoint(c, s, t.ctid); }
    TiledRange(t, tile, v, last);
    LoopInTable(t, v, last);
    LoopOneThread(t, v, last);
    end := ForcedAllMaps(c, s, t.Loop(v, last), side, t.ctid, tile[m]);
  }

  /** After a release no entry of the process covers a page of the buffer. */
  lemma ReleaseUnmaps(c: Config, s: State, i: nat, p: nat, e: Entry)
    requires c.Valid() && Ok(c, s) && i < |s.buffers| && s.buffers[i].Contains(p)
    ensures s.buffers[i].ctid < |c.hpid|
    ensures e in Released(c, s, i).tlb && Covers(c.g, e, p) ==> e.hpid != c.hpid[s.buffers[i].ctid]
  {
    hide FramesOk, NonZero, TlbOk, MoveOk, Covers, Cleared;
    ClearedExact(c, s.tlb, s.buffers[i], e);
  }

  /** The thread's other buffers stay mapped as they were. */
  lemma ReleaseKeepsMapped(c: Config, s: State, i: nat, k: nat, p: nat)
    requires c.Valid() && Ok(c, s) && i < |s.buffers| && k < |s.buffers| && i != k
    requires s.buffers[k].ctid == s.buffers[i].ctid && MappedFor(c, s.tlb, s.buffers[k], p)
    ensures s.buffers[i].ctid < |c.hpid| && MappedFor(c, Released(c, s, i).tlb, s.buffers[k], p)
  {
    hide FramesOk, NonZero, TlbOk, MoveOk, MappedFor, Cleared;
    StaysMapped(c, s, i, k, p);
  }
}
