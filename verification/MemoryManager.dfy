/**
 The driver's memory-management calls on one vFPGA: mapping and unmapping a buffer, the page-fault
 handler, and the calls that move or release buffers. Each call is tied to the protocol state.
 */
module MemoryManager {
  import opened Bits
  import opened Errno
  import opened Tlb
  import opened TlbMapping
  import opened BufferTable
  import opened Wrappers
  import opened Dma
  import opened VirtualMemory
  import opened RangeMoves

  const BUFF_NEEDS_EXP_SYNC_RET_CODE: int := 99

  /** The inner loop of the map and unmap walks: do the pages from `i` on form one large page? */
  method CanGroup(g: Geometry, fs: seq<nat>, vaddr: nat, i: nat) returns (huge: bool)
    requires g.Valid() && i < |fs|
    ensures huge == CanCoalesce(g, fs, vaddr, i)
  {
    hide Low, Shr, Pow2;
    var h := g.PagesInHuge();
    huge := false;
    if |fs| >= h && i <= |fs| - h && g.large.Offset(vaddr + i) == 0 && Low(fs[i], g.large.pageShift) == 0 {
      huge := true;
      var last := fs[i];
      for j := i + 1 to i + h
        invariant huge && last == fs[j - 1]
        invariant forall k :: i <= k < j ==> fs[k] == fs[i] + (k - i) * PAGE_SIZE
      {
        if fs[j] != last + PAGE_SIZE {
          huge := false;
          assert fs[j] != fs[i] + (j - i) * PAGE_SIZE;
          assert !Contiguous(fs, i, h);
          return;
        }
        last := fs[j];
      }
    }
  }

  /** Everything a buffer's pages put into a TLB word fits its field. */
  lemma BufferFits(c: Config, b: Buffer, huge: bool, page: nat, host: nat)
    requires c.Valid() && BufferOk(c, b) && page < b.End() && (host == HOST_ACCESS || host == CARD_ACCESS)
    ensures Fits(c.g.Meta(huge), page, host, b.ctid, c.hpid[b.ctid])
  {
    hide FramesOk, Low, Shr;
    var m := c.g.Meta(huge);
    var s := m.pageShift - PAGE_SHIFT;
    assert s + (m.keySize + m.tagSize) == TLB_VADDR_RANGE - PAGE_SHIFT;
    ShrBound(page, s, m.keySize + m.tagSize);
  }

  // ---------------------------------------------------------------------------------------------
  // What the calls do to the protocol state
  // ---------------------------------------------------------------------------------------------

  /** Both memories after a whole migration. */
  ghost function Migrated(m: Memories, j: Job): Memories
    requires j.Valid()
  {
    CopiedAll(j.dir, m, j.Commands(0), |j.Commands(0)|)
  }

  /** A window of buffer `i` has been mapped. */
  ghost function WithWindow(c: Config, s: State, i: nat, w: Window): State
    requires c.Valid() && i < |s.buffers| && BufferOk(c, s.buffers[i]) && WindowOk(c, s.buffers[i], w)
  {
    s.(tlb := s.tlb + WindowEntries(c, s.buffers[i], w))
  }

  /** Buffer `i` has been flagged for a side, migrated there and mapped; `tlb` is what was mapped before. */
  ghost function Placed(c: Config, s: State, i: nat, side: nat, w: Window, tlb: set<Entry>): State
    requires c.Valid() && i < |s.buffers| && BufferOk(c, s.buffers[i]) && WindowOk(c, s.buffers[i], w)
    requires side == HOST_ACCESS || side == CARD_ACCESS
  {
    var b := s.buffers[i].(host := side);
    SideOk(c, s.buffers[i], side, w);
    s.(buffers := s.buffers[i := b],
       tlb := tlb + WindowEntries(c, b, w),
       mem := Migrated(s.mem, JobOf(b)))
  }

  lemma SideOk(c: Config, b: Buffer, side: nat, w: Window)
    requires c.Valid() && BufferOk(c, b) && WindowOk(c, b, w) && (side == HOST_ACCESS || side == CARD_ACCESS)
    ensures BufferOk(c, b.(host := side)) && WindowOk(c, b.(host := side), w) && JobOf(b.(host := side)).Valid()
  {
    hide FramesOk;
  }

  /** The steps of one execution. */
  ghost predicate Path(c: Config, tr: seq<State>, evs: seq<Event>)
    requires c.Valid()
    ensures Path(c, tr, evs) ==> |tr| == |evs| + 1
  {
    |tr| == |evs| + 1 && forall i :: 0 <= i < |evs| ==> ProtocolStep(c, tr[i], evs[i], tr[i + 1])
  }

  lemma {:induction false} PathOk(c: Config, tr: seq<State>, evs: seq<Event>, n: nat)
    requires c.Valid() && Path(c, tr, evs) && n <= |evs| && Ok(c, tr[0])
    ensures Ok(c, tr[n])
  {
    hide Ok, ProtocolStep;
    if n > 0 {
      PathOk(c, tr, evs, n - 1);
      StepOk(c, tr[n - 1], evs[n - 1], tr[n]);
    }
  }

  /** Events from position `m` on belong to a migration that has begun. */
  ghost predicate UnderWay(evs: seq<Event>, m: nat) {
    forall i :: m <= i < |evs| ==> evs[i].Transfer? || evs[i].EndMove?
  }

  /** While the interrupt is missing, driver or card can still go on. */
  lemma MoveGoesOn(j: Job, m0: Memories, e: Engine, m: Memories) returns (e': Engine, m': Memories)
    requires j.Valid() && |j.hpages| > 0 && NonZero(j) && Dma.Inv(j, m0, e, m) && !e.irq
    ensures Next(j, e, m, e', m')
    ensures 0 <= Work(j, e') < Work(j, e) || (0 <= Work(j, e') == Work(j, e) && e'.sent < e.sent)
  {
    OnePerPage(j, 0);
    assert j.Commands(0)[|j.hpages| - 1].last;
    assert e.next == |j.hpages| ==> e.log == j.Commands(0);
    e', m' := NeverStuck(j, m0, e, m);
  }

  /** The TLBs when a migration begins: an unmapped buffer needs no unmapping. */
  ghost function Before(c: Config, s: State, i: nat, first: bool): set<Entry>
    requires c.Valid() && i < |s.buffers| && s.buffers[i].ctid < |c.hpid|
  {
    if first then s.tlb else Cleared(c, s.tlb, s.buffers[i])
  }

  /** The event that begins a migration to a side. */
  ghost function Begin(s: State, i: nat, w: Window, side: nat, first: bool): Event
    requires i < |s.buffers|
  {
    if s.buffers[i].host == side then MoveInPlace(i, w) else if first then FirstMove(i, w) else BeginMove(i, w)
  }

  ghost predicate Movable(c: Config, s: State, i: nat, w: Window, side: nat, first: bool)
    requires c.Valid()
  {
    && s.move.None? && i < |s.buffers| && BufferOk(c, s.buffers[i]) && WindowOk(c, s.buffers[i], w)
    && (side == HOST_ACCESS || side == CARD_ACCESS)
    && (first ==> NeverMapped(c, s.tlb, s.buffers[i]) && s.buffers[i].host != side)
  }

  /** Bringing a buffer to a side is one migration of the protocol, from its beginning to its end. */
  lemma PlacedByProtocol(c: Config, s: State, i: nat, w: Window, side: nat, first: bool)
    returns (tr: seq<State>, evs: seq<Event>)
    requires c.Valid() && Movable(c, s, i, w, side, first)
    ensures Path(c, tr, evs) && |evs| > 0 && evs[0] == Begin(s, i, w, side, first) && UnderWay(evs, 1)
    ensures tr[0] == s && tr[|evs|] == Placed(c, s, i, side, w, Before(c, s, i, first))
  {
    hide FramesOk, WindowEntries, Invalidated, EngineInv, NonZero;
    var b := s.buffers[i].(host := side);
    SideOk(c, s.buffers[i], side, w);
    var j := JobOf(b);
    var e, m := Start, s.mem;
    var tlb := Before(c, s, i, first);
    var cur := s.(buffers := s.buffers[i := b], tlb := tlb, move := Some(Move(i, w, e)));
    BeginStep(c, s, i, w, side, first, cur);
    tr, evs := [s, cur], [Begin(s, i, w, side, first)];
    assert j.Valid() && |j.hpages| > 0 && NonZero(j);
    hide BufferOk, ProtocolStep, Next, Before, Begin, CopiedAll;
    assert Path(c, tr, evs) && UnderWay(evs, 1);
    hide Path, UnderWay;
    InvStart(j, s.mem);
    while !e.irq
      invariant |tr| == |evs| + 1 > 1 && tr[0] == s && tr[|evs|] == cur && evs[0] == Begin(s, i, w, side, first)
      invariant Path(c, tr, evs) && UnderWay(evs, 1)
      invariant cur == State(s.buffers[i := b], tlb, m, Some(Move(i, w, e)))
      invariant Dma.Inv(j, s.mem, e, m) && Work(j, e) >= 0
      decreases Work(j, e), e.sent
    {
      var e', m' := MoveGoesOn(j, s.mem, e, m);
      InvStep(j, s.mem, e, m, e', m');
      var next := cur.(mem := m', move := Some(Move(i, w, e')));
      TransferStep(c, cur, j, next);
      ExtendPath(c, tr, evs, Transfer, next);
      tr, evs := tr + [next], evs + [Transfer];
      e, m, cur := e', m', next;
    }
    var end := cur.(tlb := cur.tlb + WindowEntries(c, b, w), move := None);
    EndStep(c, cur, b, w, end);
    PlacedAtEnd(c, s, i, w, side, tlb, e, m, end);
    ExtendPath(c, tr, evs, EndMove, end);
    tr, evs := tr + [end], evs + [EndMove];
  }

  /** When the interrupt has come, what remains is the mapping. */
  lemma PlacedAtEnd(c: Config, s: State, i: nat, w: Window, side: nat, tlb: set<Entry>,
                    e: Engine, m: Memories, s': State)
    requires c.Valid() && s.move.None? && i < |s.buffers| && (side == HOST_ACCESS || side == CARD_ACCESS)
    requires BufferOk(c, s.buffers[i]) && WindowOk(c, s.buffers[i], w)
    requires var b := s.buffers[i].(host := side);
             && BufferOk(c, b) && WindowOk(c, b, w) && JobOf(b).Valid() && Dma.Inv(JobOf(b), s.mem, e, m) && e.irq
             && s' == State(s.buffers[i := b], tlb + WindowEntries(c, b, w), m, None)
    ensures s' == Placed(c, s, i, side, w, tlb)
  {
    hide BufferOk, WindowOk, WindowEntries, EngineInv;
    InterruptMeansDone(JobOf(s.buffers[i].(host := side)), e);
  }

  lemma EndStep(c: Config, s: State, b: Buffer, w: Window, s': State)
    requires c.Valid() && s.move.Some? && s.move.value.index < |s.buffers| && s.move.value.eng.irq
    requires b == s.buffers[s.move.value.index] && w == s.move.value.window && BufferOk(c, b) && WindowOk(c, b, w)
    requires s' == s.(tlb := s.tlb + WindowEntries(c, b, w), move := None)
    ensures ProtocolStep(c, s, EndMove, s')
  {
  }

  lemma BeginStep(c: Config, s: State, i: nat, w: Window, side: nat, first: bool, s': State)
    requires c.Valid() && Movable(c, s, i, w, side, first)
    requires s' == s.(buffers := s.buffers[i := s.buffers[i].(host := side)], tlb := Before(c, s, i, first),
                      move := Some(Move(i, w, Start)))
    ensures ProtocolStep(c, s, Begin(s, i, w, side, first), s')
  {
    hide FramesOk, NonZero, Invalidated;
    if s.buffers[i].host == side { assert s'.buffers == s.buffers; }
  }

  lemma TransferStep(c: Config, s: State, j: Job, s': State)
    requires c.Valid() && s.move.Some? && s.move.value.index < |s.buffers| && s'.move.Some?
    requires j == JobOf(s.buffers[s.move.value.index]) && j.Valid()
    requires s' == s.(mem := s'.mem, move := Some(s.move.value.(eng := s'.move.value.eng)))
    requires Next(j, s.move.value.eng, s.mem, s'.move.value.eng, s'.mem)
    ensures ProtocolStep(c, s, Transfer, s')
  {
  }

  lemma ExtendPath(c: Config, tr: seq<State>, evs: seq<Event>, ev: Event, s: State)
    requires c.Valid() && Path(c, tr, evs) && ProtocolStep(c, tr[|evs|], ev, s)
    requires (ev.Transfer? || ev.EndMove?) && UnderWay(evs, 1)
    ensures Path(c, tr + [s], evs + [ev]) && UnderWay(evs + [ev], 1)
  {
    hide ProtocolStep;
    var tr', evs' := tr + [s], evs + [ev];
    forall i | 0 <= i < |evs'| ensures ProtocolStep(c, tr'[i], evs'[i], tr'[i + 1]) {
      if i < |evs| { assert tr'[i] == tr[i] && tr'[i + 1] == tr[i + 1] && evs'[i] == evs[i]; }
    }
  }

  /** Bringing a buffer to a side keeps the invariant. */
  lemma PlacedOk(c: Config, s: State, i: nat, w: Window, side: nat, first: bool)
    requires c.Valid() && Ok(c, s) && Movable(c, s, i, w, side, first)
    ensures Ok(c, Placed(c, s, i, side, w, Before(c, s, i, first)))
  {
    hide Ok, BufferOk, ProtocolStep, Placed, Begin;
    var tr, evs := PlacedByProtocol(c, s, i, w, side, first);
    PathOk(c, tr, evs, |evs|);
  }

  // ---------------------------------------------------------------------------------------------
  // The page-fault handler
  // ---------------------------------------------------------------------------------------------

  /** What pinning the pages of a window and allocating card memory for it yields. */
  datatype Grant = Grant(hpages: seq<nat>, cpages: seq<nat>, needsSync: bool)

  function NewBuffer(gr: Grant, w: Window, huge: bool, ctid: nat): Buffer {
    Buffer(w.vaddr, gr.hpages, gr.cpages, huge, ctid, HOST_ACCESS)
  }

  /** Pinned and allocated frames are as many as asked for and representable. They may be in use elsewhere. */
  ghost predicate GrantOk(c: Config, gr: Grant, w: Window, huge: bool, ctid: nat)
    requires c.Valid()
  {
    |gr.hpages| == w.n && BufferOk(c, NewBuffer(gr, w, huge, ctid))
  }

  /** A fault as it reaches the handler, after the lookup of its address in the process. */
  datatype Fault = Fault(addr: nat, len: nat, ctid: nat, stream: nat, huge: bool)

  /** The handler's result on a hit. */
  ghost predicate HitResult(c: Config, s: State, f: Fault, i: nat, w: Window, s': State, ret: int)
    requires c.Valid() && Ok(c, s) && i < |s.buffers| && WindowOk(c, s.buffers[i], w)
  {
    if f.stream != HOST_ACCESS && f.stream != CARD_ACCESS then ret == -EINVAL && s' == s
    else
      ret == 0 && s' == if s.buffers[i].host == f.stream then WithWindow(c, s, i, w)
                        else Placed(c, s, i, f.stream, w, Cleared(c, s.tlb, s.buffers[i]))
  }

  /** ... and on a miss; here every stream but card access counts as host access. */
  ghost predicate MissResult(c: Config, s: State, f: Fault, gr: Option<Grant>, w: Window, s': State, ret: int)
    requires c.Valid() && Ok(c, s) && s.move.None?
    requires gr.Some? ==> GrantOk(c, gr.value, w, f.huge, f.ctid)
  {
    if w.n == 0 || gr.None? then ret == -ENOMEM && s' == s
    else
      var b := NewBuffer(gr.value, w, f.huge, f.ctid);
      var s1 := s.(buffers := [b] + s.buffers);
      && ret == (if gr.value.needsSync then BUFF_NEEDS_EXP_SYNC_RET_CODE else 0)
      && WindowOk(c, b, w)
      && s' == if f.stream != CARD_ACCESS then WithWindow(c, s1, 0, w) else Placed(c, s1, 0, CARD_ACCESS, w, s1.tlb)
  }

  lemma AlignedWindow(g: Geometry, addr: nat, len: nat)
    requires g.Valid()
    ensures g.large.Offset(FaultWindow(g, true, addr, len).vaddr) == 0
    ensures g.large.Offset(FaultWindow(g, true, addr, len).n) == 0
  {
    var o := g.large.pageShift - PAGE_SHIFT;
    var m := g.large;
    ShlShr(Shr(addr, m.pageShift), o);
    ShlShr(PagesTouched(m, addr, len), o);
    LowLow(PagesTouched(m, addr, len) * Pow2(o), 32, o);
  }

  /**
   A huge-page fault that misses gets a window of whole huge pages exactly when it is not clipped or
   the buffer it is clipped in front of starts at a huge page.
   */
  lemma ClippedHugeWindow(g: Geometry, bs: set<Buffer>, addr: nat, len: nat, n: nat)
    requires g.Valid() && Answer(bs, FaultWindow(g, true, addr, len), None, n)
    ensures var w := FaultWindow(g, true, addr, len);
            g.large.Offset(n) == 0
            <==> n == w.n || exists b :: b in bs && b.vaddr == w.vaddr + n && g.large.Offset(b.vaddr) == 0
  {
    hide Low, Shr, Pow2, FaultWindow;
    var w := FaultWindow(g, true, addr, len);
    AlignedWindow(g, addr, len);
    OffsetAdd(g, w.vaddr, n);
  }

  /** A fault over two huge pages, with a small buffer that starts one page into the second of them. */
  lemma ClippedHugeExample(g: Geometry, q: nat, addr: nat, len: nat, first: nat, b: Buffer)
    requires g.Valid() && PAGE_SHIFT < g.large.pageShift < TLB_PADDR_RANGE - 1
    requires addr == q * Pow2(g.large.pageShift) && len == 2 * Pow2(g.large.pageShift)
    requires first == q * g.PagesInHuge() && b.vaddr == first + g.PagesInHuge() + 1 && b.Pages() > 0
    ensures var w := FaultWindow(g, true, addr, len);
            && w == Window(first, 2 * g.PagesInHuge()) && Answer({b}, w, None, g.PagesInHuge() + 1)
            && g.large.Offset(g.PagesInHuge() + 1) != 0
  {
    hide Low, Shr, Pow2;
    var o := g.large.pageShift - PAGE_SHIFT;
    TwoTouched(g.large, q, addr, len);
    Twice(o);
    Twice(0);
    Twice(o + 1);
    Pow2Mono(o + 2, 32);
    Pow2Mono(1, o);
    LowSmall(2 * Pow2(o), 32);
    Unique(Pow2(o) + 1, o, 1, 1);
    assert b in {b};
  }

  /** Two pages' worth of bytes from the start of a page on. */
  lemma TwoTouched(m: TlbMeta, q: nat, addr: nat, len: nat)
    requires addr == q * Pow2(m.pageShift) && len == 2 * Pow2(m.pageShift)
    ensures Shr(addr, m.pageShift) == q && PagesTouched(m, addr, len) == 2
  {
    hide Low, Shr, Pow2;
    var p := Pow2(m.pageShift);
    Unique(addr, m.pageShift, q, 0);
    Distribute(q, 1, p);
    Unique(addr + len - 1, m.pageShift, q + 1, p - 1);
  }

  lemma Twice(n: nat)
    ensures Pow2(0) == 1 && Pow2(n + 1) == 2 * Pow2(n)
  {
  }

  /** A hit keeps the invariant, whichever way it goes. */
  lemma HitOk(c: Config, s: State, f: Fault, i: nat, w: Window, s': State, ret: int)
    requires c.Valid() && Ok(c, s) && s.move.None? && i < |s.buffers| && WindowOk(c, s.buffers[i], w)
    requires HitResult(c, s, f, i, w, s', ret)
    ensures Ok(c, s')
  {
    hide FramesOk, TlbOk, MoveOk, NonZero, Placed, WindowEntries;
    if f.stream == HOST_ACCESS || f.stream == CARD_ACCESS {
      if s.buffers[i].host == f.stream {
        StepOk(c, s, MapWindow(i, w), s');
      } else {
        PlacedOk(c, s, i, w, f.stream, false);
      }
    }
  }

  /** A buffer that was just added is not mapped yet. */
  lemma NewUnmapped(c: Config, s: State, b: Buffer, s': State)
    requires c.Valid() && Ok(c, s) && Ok(c, s') && ProtocolStep(c, s, Create(b), s')
    ensures NeverMapped(c, s'.tlb, s'.buffers[0])
  {
    hide BufferOk, Backs, MoveOk;
    forall e | e in s'.tlb ensures !Backs(c, b, e) {
      assert Backed(c, s, e);
      var k: nat :| k < |s.buffers| && !s.Moving(k) && Backs(c, s.buffers[k], e);
      assert s'.buffers[k + 1] == s.buffers[k] && s'.buffers[0] == b;
      if Backs(c, b, e) { BackedOnce(c, s', e, 0, k + 1); }
    }
  }

  lemma OwnPage(g: Geometry, e: Entry) returns (p: nat)
    requires g.Valid()
    ensures Covers(g, e, p)
  {
    hide Low, Shr, Pow2;
    MulNonNeg(e.vpn, g.Span(e.huge));
    CoversOwnPage(g, e);
    p := e.vpn * g.Span(e.huge);
  }

  /** Only one buffer can back an entry. */
  lemma BackedOnce(c: Config, s: State, e: Entry, i: nat, k: nat)
    requires c.Valid() && TableOk(c, s.buffers) && i < |s.buffers| && k < |s.buffers|
    requires Backs(c, s.buffers[i], e) && Backs(c, s.buffers[k], e)
    ensures i == k
  {
    hide BufferOk, Covers, Translate;
    var p := OwnPage(c.g, e);
    OneHolder(c, s, i, k, (e.ctid, p));
  }

  /** The pages of a window that nobody holds make a new buffer. */
  lemma MissCreates(c: Config, s: State, f: Fault, gr: Grant, w: Window, n0: nat)
    requires c.Valid() && Ok(c, s) && s.move.None? && w.n > 0 && GrantOk(c, gr, w, f.huge, f.ctid)
    requires Answer(Members(s.buffers, f.ctid), Window(w.vaddr, n0), None, w.n)
    ensures var b := NewBuffer(gr, w, f.huge, f.ctid);
            ProtocolStep(c, s, Create(b), s.(buffers := [b] + s.buffers))
  {
    hide FramesOk, TlbOk, MoveOk, NonZero;
    TableDisjoint(c, s, f.ctid);
    MissKeepsDisjoint(s.buffers, f.ctid, Window(w.vaddr, n0), w.n, NewBuffer(gr, w, f.huge, f.ctid));
  }

  /** A miss keeps the invariant, whatever frames the new buffer gets. */
  lemma MissOk(c: Config, s: State, f: Fault, gr: Option<Grant>, w: Window, n0: nat, s': State, ret: int)
    requires c.Valid() && Ok(c, s) && s.move.None?
    requires Answer(Members(s.buffers, f.ctid), Window(w.vaddr, n0), None, w.n)
    requires gr.Some? ==> GrantOk(c, gr.value, w, f.huge, f.ctid)
    requires MissResult(c, s, f, gr, w, s', ret)
    ensures Ok(c, s')
  {
    hide FramesOk, TlbOk, MoveOk, NonZero, Placed, WindowEntries;
    if w.n > 0 && gr.Some? {
      var b := NewBuffer(gr.value, w, f.huge, f.ctid);
      MissCreates(c, s, f, gr.value, w, n0);
      var s1 := s.(buffers := [b] + s.buffers);
      StepOk(c, s, Create(b), s1);
      if f.stream != CARD_ACCESS {
        StepOk(c, s1, MapWindow(0, w), s');
      } else {
        NewUnmapped(c, s, b, s1);
        PlacedOk(c, s1, 0, w, CARD_ACCESS, true);
      }
    }
  }

  // ---------------------------------------------------------------------------------------------
  // Offload and sync
  // ---------------------------------------------------------------------------------------------

  function Whole(b: Buffer): Window { Window(b.vaddr, b.Pages()) }

  /** Buffer `i` has been moved to a side and mapped in full, whatever side it was on. */
  ghost function Forced(c: Config, s: State, i: nat, side: nat): (s': State)
    requires c.Valid() && i < |s.buffers| && BufferOk(c, s.buffers[i])
    requires side == HOST_ACCESS || side == CARD_ACCESS
    ensures s'.buffers == s.buffers[i := s.buffers[i].(host := side)] && BufferOk(c, s'.buffers[i])
  {
    NewWindowOk(c, s.buffers[i], Whole(s.buffers[i]));
    SideOk(c, s.buffers[i], side, Whole(s.buffers[i]));
    Placed(c, s, i, side, Whole(s.buffers[i]), Cleared(c, s.tlb, s.buffers[i]))
  }

  ghost predicate AllOk(c: Config, bs: seq<Buffer>)
    requires c.Valid()
  {
    forall i :: 0 <= i < |bs| ==> BufferOk(c, bs[i])
  }

  /** A list of buffers has been moved to a side, one after the other. */
  ghost function ForcedAll(c: Config, s: State, moves: seq<nat>, side: nat): (s': State)
    requires c.Valid() && AllOk(c, s.buffers) && (side == HOST_ACCESS || side == CARD_ACCESS)
    requires InTable(moves, |s.buffers|)
    ensures AllOk(c, s'.buffers) && |s'.buffers| == |s.buffers|
    decreases |moves|
  {
    hide BufferOk, Forced;
    if moves == [] then s
    else Forced(c, ForcedAll(c, s, moves[..|moves| - 1], side), moves[|moves| - 1], side)
  }

  /** The listed buffers end on the requested side; nothing else about any buffer changes. */
  lemma {:induction false} ForcedAllSides(c: Config, s: State, moves: seq<nat>, side: nat, i: nat)
    requires c.Valid() && AllOk(c, s.buffers) && (side == HOST_ACCESS || side == CARD_ACCESS)
    requires InTable(moves, |s.buffers|) && i < |s.buffers|
    ensures ForcedAll(c, s, moves, side).buffers[i]
         == s.buffers[i].(host := if i in moves then side else s.buffers[i].host)
    decreases |moves|
  {
    hide BufferOk, Forced;
    if moves != [] {
      var n := |moves| - 1;
      ForcedAllSides(c, s, moves[..n], side, i);
      assert moves == moves[..n] + [moves[n]];
    }
  }

  /**
   Offloading or syncing a range that starts at a buffer and is tiled by adjacent buffers leaves
   every buffer of the range on the requested side, for any hash function and chain order.
   */
  lemma TiledRangeMoved(c: Config, s: State, t: Table, tile: seq<nat>, v: nat, last: nat, side: nat, m: nat)
    requires c.Valid() && TableOk(c, s.buffers) && t.bs == s.buffers && (side == HOST_ACCESS || side == CARD_ACCESS)
    requires Adjacent(t, tile) && v == t.bs[tile[0]].vaddr && last < t.bs[tile[|tile| - 1]].End()
    requires m < |tile| && t.bs[tile[m]].vaddr <= last
    ensures t.Ends(v, last) && InTable(t.Loop(v, last), |s.buffers|)
    ensures ForcedAll(c, s, t.Loop(v, last), side).buffers[tile[m]].host == side
  {
    hide BufferOk;
    assert Disjoint(t.bs, t.ctid) by { TableDisjoint(c, s, t.ctid); }
    TiledRange(t, tile, v, last);
    LoopInTable(t, v, last);
    ForcedAllSides(c, s, t.Loop(v, last), side, tile[m]);
  }

  lemma TableDisjoint(c: Config, s: State, ctid: nat)
    requires c.Valid() && TableOk(c, s.buffers)
    ensures Disjoint(s.buffers, ctid)
  {
    hide FramesOk, NonZero;
  }

  // ---------------------------------------------------------------------------------------------
  // Runs of calls
  // ---------------------------------------------------------------------------------------------

  /** Moving a buffer, to whatever side, keeps the invariant. */
  lemma ForcedOk(c: Config, s: State, i: nat, side: nat)
    requires c.Valid() && Ok(c, s) && s.move.None? && i < |s.buffers| && (side == HOST_ACCESS || side == CARD_ACCESS)
    ensures BufferOk(c, s.buffers[i])
    ensures var s' := Forced(c, s, i, side); Ok(c, s') && s'.move.None?
  {
    hide FramesOk, NonZero, TlbOk, MoveOk;
    NewWindowOk(c, s.buffers[i], Whole(s.buffers[i]));
    PlacedOk(c, s, i, Whole(s.buffers[i]), side, false);
  }

  lemma OkAll(c: Config, s: State)
    requires c.Valid() && Ok(c, s)
    ensures AllOk(c, s.buffers)
  {
    hide BufferOk, TlbOk, MoveOk;
  }

  lemma OkBuffer(c: Config, s: State, i: nat)
    requires c.Valid() && Ok(c, s) && i < |s.buffers|
    ensures BufferOk(c, s.buffers[i])
  {
    hide BufferOk, TlbOk, MoveOk;
  }

  lemma {:induction false} ForcedAllOk(c: Config, s: State, moves: seq<nat>, side: nat)
    requires c.Valid() && Ok(c, s) && s.move.None? && (side == HOST_ACCESS || side == CARD_ACCESS)
    requires InTable(moves, |s.buffers|)
    ensures AllOk(c, s.buffers)
    ensures var s' := ForcedAll(c, s, moves, side); Ok(c, s') && s'.move.None?
    decreases |moves|
  {
    hide BufferOk, Ok, Forced;
    OkAll(c, s);
    if moves != [] {
      var n := |moves| - 1;
      ForcedAllOk(c, s, moves[..n], side);
      ForcedOk(c, ForcedAll(c, s, moves[..n], side), moves[n], side);
    }
  }

  /** One buffer has been unmapped and taken off the table. */
  ghost function Released(c: Config, s: State, i: nat): State
    requires c.Valid() && i < |s.buffers| && s.buffers[i].ctid < |c.hpid|
  {
    s.(buffers := s.buffers[..i] + s.buffers[i + 1..], tlb := Cleared(c, s.tlb, s.buffers[i]))
  }

  /**
   What happens to a driver: a page fault, with the outcome of pinning and allocating, the buffer it
   hit and the window it got; an offload or sync; a release; or a step of FPGA, processor or TLB.
   */
  datatype Call =
    | PageFault(f: Fault, gr: Option<Grant>, hit: Option<nat>, w: Window)
    | MoveRange(v: nat, last: nat, ctid: nat, side: nat)
    | Put(v: nat, ctid: nat)
    | Outside(ev: Event)

  ghost predicate External(ev: Event) { ev.Evict? || ev.FpgaWrite? || ev.CpuWrite? || ev.CpuOther? }

  /** A fault is answered as the search says, and handled as hit or miss. */
  ghost predicate FaultStep(c: Config, s: State, f: Fault, gr: Option<Grant>, hit: Option<nat>, w: Window,
                            s': State, ret: int)
    requires c.Valid() && Ok(c, s) && s.move.None?
  {
    var w0 := FaultWindow(c.g, f.huge, f.addr, f.len);
    && f.ctid < |c.hpid| && w.vaddr == w0.vaddr
    && (hit.Some? ==> hit.value < |s.buffers| && WindowOk(c, s.buffers[hit.value], w)
                      && Answer(Members(s.buffers, f.ctid), w0, Some(s.buffers[hit.value]), w.n)
                      && HitResult(c, s, f, hit.value, w, s', ret))
    && (hit.None? ==> Answer(Members(s.buffers, f.ctid), w0, None, w.n)
                      && (gr.Some? ==> GrantOk(c, gr.value, w, f.huge, f.ctid))
                      && MissResult(c, s, f, gr, w, s', ret))
  }

  ghost predicate CallStep(c: Config, hash: nat -> nat, s: State, call: Call, s': State)
    requires c.Valid() && Ok(c, s) && s.move.None?
  {
    hide BufferOk, Forced, FaultStep, Released;
    match call
    case PageFault(f, gr, hit, w) => exists ret :: FaultStep(c, s, f, gr, hit, w, s', ret)
    case MoveRange(v, last, ctid, side) =>
      var t := Table(s.buffers, ctid, hash);
      OkAll(c, s);
      && (side == HOST_ACCESS || side == CARD_ACCESS) && t.Ends(v, last)
      && InTable(t.Loop(v, last), |s.buffers|) && s' == ForcedAll(c, s, t.Loop(v, last), side)
    case Put(v, ctid) =>
      var i := Found(s.buffers, ctid, hash, v);
      if i < |s.buffers| then s.buffers[i].ctid < |c.hpid| && s' == Released(c, s, i) else s' == s
    case Outside(ev) => External(ev) && ProtocolStep(c, s, ev, s')
  }

  lemma FaultOk(c: Config, s: State, f: Fault, gr: Option<Grant>, hit: Option<nat>, w: Window, s': State, ret: int)
    requires c.Valid() && Ok(c, s) && s.move.None? && FaultStep(c, s, f, gr, hit, w, s', ret)
    ensures Ok(c, s') && s'.move.None?
  {
    hide BufferOk, TlbOk, MoveOk, FaultWindow, Cleared, WindowEntries, Migrated, Answer;
    if hit.Some? {
      HitOk(c, s, f, hit.value, w, s', ret);
    } else {
      MissOk(c, s, f, gr, w, FaultWindow(c.g, f.huge, f.addr, f.len).n, s', ret);
    }
  }

  /** Every call keeps the invariant. */
  lemma CallOk(c: Config, hash: nat -> nat, s: State, call: Call, s': State)
    requires c.Valid() && Ok(c, s) && s.move.None? && CallStep(c, hash, s, call, s')
    ensures Ok(c, s') && s'.move.None?
  {
    hide Ok, FaultStep, ForcedAll, BufferOk, Cleared;
    match call {
      case PageFault(f, gr, hit, w) =>
        var ret :| FaultStep(c, s, f, gr, hit, w, s', ret);
        FaultOk(c, s, f, gr, hit, w, s', ret);
      case MoveRange(v, last, ctid, side) =>
        ForcedAllOk(c, s, Table(s.buffers, ctid, hash).Loop(v, last), side);
      case Put(v, ctid) =>
        var i := Found(s.buffers, ctid, hash, v);
        if i < |s.buffers| { StepOk(c, s, Release(i), s'); }
      case Outside(ev) => StepOk(c, s, ev, s');
    }
  }

  /** A run of calls, from an empty table on. What a call does is asked only in states that are in order. */
  ghost predicate CallRun(c: Config, hash: nat -> nat, tr: seq<State>, calls: seq<Call>)
    requires c.Valid()
  {
    && |tr| == |calls| + 1 && tr[0].buffers == [] && tr[0].tlb == {} && tr[0].move.None?
    && forall i :: 0 <= i < |calls| && Ok(c, tr[i]) && tr[i].move.None? ==>
         CallStep(c, hash, tr[i], calls[i], tr[i + 1])
  }

  /** On every run of faults, offloads, syncs and releases, whatever frames they share, the invariant holds. */
  lemma {:induction false} CallsOk(c: Config, hash: nat -> nat, tr: seq<State>, calls: seq<Call>, n: nat)
    requires c.Valid() && CallRun(c, hash, tr, calls) && n <= |calls|
    ensures Ok(c, tr[n]) && tr[n].move.None?
  {
    if n == 0 {
      assert Ok(c, tr[0]);
    } else {
      hide CallStep, Ok;
      CallsOk(c, hash, tr, calls, n - 1);
      CallOk(c, hash, tr[n - 1], calls[n - 1], tr[n]);
    }
  }

  /** Between any two calls of any run every entry leads to the page its buffer's flag selects. */
  lemma CallsEntries(c: Config, hash: nat -> nat, tr: seq<State>, calls: seq<Call>, n: nat, e: Entry, page: nat)
    requires c.Valid() && CallRun(c, hash, tr, calls) && n <= |calls| && e in tr[n].tlb && Covers(c.g, e, page)
    ensures LeadsRight(c, tr[n], e, page)
  {
    hide CallStep, Ok, LeadsRight, Covers;
    CallsOk(c, hash, tr, calls, n);
    EntryLeadsRight(c, tr[n], e, page);
  }

  class Vfpga {
    const c: Config
    /** How many commands beyond the first the card completes between two polls of the driver. */
    const pace: nat -> nat
    var buffers: seq<Buffer>
    var tlb: set<Entry>
    var mem: Memories

    ghost function S(): State
      reads this
    {
      State(buffers, tlb, mem, None)
    }

    method CreateTlbMapping(huge: bool, page: nat, paddr: nat, host: nat, ctid: nat, hpid: nat)
      requires c.Valid() && Fits(c.g.Meta(huge), page, host, ctid, hpid)
      modifies this`tlb
      ensures tlb == old(tlb) + {MappedEntry(c.g, huge, page, paddr, host, ctid, hpid)}
    {
      MapWrites(c.g, tlb, huge, page, paddr, host, ctid, hpid);
      tlb := Written(c.g, tlb, huge, MapWords(c.g.Meta(huge), page, paddr, host, ctid, hpid));
    }

    method CreateTlbUnmapping(huge: bool, page: nat, hpid: nat)
      requires c.Valid() && Fits(c.g.Meta(huge), page, 0, 0, hpid)
      modifies this`tlb
      ensures tlb == set e | e in old(tlb) && !(e.huge == huge && e.hpid == hpid && Covers(c.g, e, page))
    {
      UnmapWrites(c.g, tlb, huge, page, hpid);
      tlb := Written(c.g, tlb, huge, UnmapWords(c.g.Meta(huge), page, hpid));
    }

    /** `tlb_map_gup`. */
    method TlbMapGup(b: Buffer, w: Window)
      requires c.Valid() && BufferOk(c, b) && WindowOk(c, b, w)
      modifies this`tlb
      ensures tlb == old(tlb) + WindowEntries(c, b, w)
    {
      hide Low, Shr, Pow2, FramesOk, Covers, MappedEntry, Walk, CanCoalesce, NonZero;
      hide StepEntries, MapProgress, MapSteps;
      var g, fs, hpid := c.g, b.Frames()[w.vaddr - b.vaddr..w.End() - b.vaddr], c.hpid[b.ctid];
      ghost var o := Owner(b.host, b.ctid, hpid);
      ghost var done: seq<Step> := [];
      var i, mapped := 0, 0;
      MapStarts(g, fs, w.vaddr, b.huge, o, tlb);
      while i < |fs| && mapped < MAX_N_MAP_PAGES
        invariant mapped == |done| <= MAX_N_MAP_PAGES
        invariant MapProgress(g, fs, w.vaddr, b.huge, o, old(tlb), tlb, i, done)
        decreases |fs| - i
      {
        var huge := b.huge;
        if !huge {
          huge := CanGroup(g, fs, w.vaddr, i);
        }
        BufferFits(c, b, huge, w.vaddr + i, b.host);
        ghost var before := tlb;
        CreateTlbMapping(huge, w.vaddr + i, fs[i], b.host, b.ctid, hpid);
        MapGoesOn(g, fs, w.vaddr, b.huge, o, old(tlb), before, i, done, huge);
        done := done + [Step(i, huge)];
        i := i + (if huge then g.PagesInHuge() else 1);
        mapped := mapped + 1;
      }
      MapEnds(g, fs, w.vaddr, b.huge, o, old(tlb), tlb, i, done);
    }

    /** The first half of `tlb_unmap_gup`: an unmapping write for every step of the walk. */
    method UnmapWalk(b: Buffer)
      requires c.Valid() && BufferOk(c, b)
      modifies this`tlb
      ensures tlb == Unmapped(c.g, old(tlb), b.vaddr, Walk(c.g, b.Frames(), b.vaddr, b.huge, 0), c.hpid[b.ctid])
    {
      hide Low, Shr, Pow2, FramesOk, Covers, Walk, CanCoalesce, NonZero;
      var g, fs, hpid := c.g, b.Frames(), c.hpid[b.ctid];
      ghost var walk, done := Walk(g, fs, b.vaddr, b.huge, 0), [];
      var i := 0;
      while i < |fs|
        invariant walk == done + Walk(g, fs, b.vaddr, b.huge, i)
        invariant tlb == Unmapped(g, old(tlb), b.vaddr, done, hpid)
        decreases |fs| - i
      {
        var huge := b.huge;
        if !huge {
          huge := CanGroup(g, fs, b.vaddr, i);
        }
        BufferFits(c, b, huge, b.vaddr + i, 0);
        CreateTlbUnmapping(huge, b.vaddr + i, hpid);
        WalkStep(g, fs, b.vaddr, b.huge, i, huge, done);
        AddUnmapped(g, old(tlb), b.vaddr, done, Step(i, huge), hpid);
        done := done + [Step(i, huge)];
        i := i + (if huge then g.PagesInHuge() else 1);
      }
      WalkEnd(g, fs, b.vaddr, b.huge, i);
    }

    /** `tlb_unmap_gup`: unmapping writes, then invalidation requests over the whole buffer. */
    method TlbUnmapGup(b: Buffer) returns (requests: seq<Invalidation>)
      requires c.Valid() && BufferOk(c, b)
      modifies this`tlb
      ensures tlb == Cleared(c, old(tlb), b)
      ensures requests == Invalidations(b.Pages(), if b.huge then c.g.PagesInHuge() else 1, 0)
    {
      hide Low, Shr, Pow2, FramesOk, Walk, NonZero, Overlaps;
      UnmapWalk(b);
      ghost var before := tlb;
      var g, n, hpid := c.g, b.Pages(), c.hpid[b.ctid];
      var inc := if b.huge then g.PagesInHuge() else 1;
      requests := [];
      var i := 0;
      LowSmall(0, g.large.pageShift - PAGE_SHIFT);
      NothingInvalidated(g, tlb, b.vaddr, hpid);
      while i < n
        invariant i <= n && (b.huge ==> g.large.Offset(i) == 0)
        invariant Invalidations(n, inc, 0) == requests + Invalidations(n, inc, i)
        invariant tlb == Invalidated(g, before, b.vaddr, i, hpid)
        decreases n - i
      {
        WholeRequest(c, b, i);
        InvalidatedTwice(g, before, b.vaddr, i, inc, hpid);
        tlb := Invalidated(g, tlb, b.vaddr + i, inc, hpid);
        requests := requests + [Invalidation(i, i == n - inc)];
        i := i + inc;
      }
      UnmappedThenCleared(c, old(tlb), b);
    }

    /** The card works off up to `k` commands of its queue; `e` is what driver and card know of it. */
    method CardWorks(j: Job, e: Engine, k: nat, ghost m0: Memories) returns (e': Engine)
      requires j.Valid() && Dma.Inv(j, m0, e, mem)
      modifies this`mem
      ensures Dma.Inv(j, m0, e', mem) && e' == e.(completed := e'.completed, irq := e'.irq)
      ensures e'.Queued() == if k < e.Queued() then e.Queued() - k else 0
    {
      hide EngineInv, CopiedAll, Copied;
      e' := e;
      EngineBounds(j, e);
      for i := 0 to if k < e.Queued() then k else e.Queued()
        invariant Dma.Inv(j, m0, e', mem) && e' == e.(completed := e.completed + i, irq := e'.irq)
      {
        var x := e'.log[e'.completed];
        var next, m := e'.(completed := e'.completed + 1, irq := e'.irq || x.last), Copied(j.dir, mem, x);
        assert CardStep(j, e', mem, next, m);
        InvStep(j, m0, e', mem, next, m);
        e', mem := next, m;
      }
    }

    /**
     `migrate_to_card`, `migrate_to_host`. One command per page; at the limit the driver polls until
     the card has caught up, and at the end it waits for the interrupt. The result does not depend
     on the card's pace.
     */
    method Migrate(j: Job)
      requires j.Valid() && |j.hpages| > 0 && !j.Skips(|j.hpages| - 1)
      modifies this`mem
      ensures mem == Migrated(old(mem), j)
    {
      hide EngineInv, CopiedAll, Copied;
      ghost var m0 := mem;
      var e, polls := Start, 0;
      InvStart(j, mem);
      for i := 0 to |j.hpages|
        invariant e.next == i && Dma.Inv(j, m0, e, mem)
      {
        if j.Skips(i) {
          DriverKeeps(j, m0, e, mem, e.(next := i + 1));
          e := e.(next := i + 1);
          continue;
        }
        while e.sent >= DMA_THRSH
          invariant e.next == i && Dma.Inv(j, m0, e, mem)
          decreases e.sent + e.Queued()
        {
          EngineBounds(j, e);
          ghost var before := e;
          e := CardWorks(j, e, 1 + pace(polls), m0);
          DriverKeeps(j, m0, e, mem, e.(sent := e.Queued()));
          e, polls := e.(sent := e.Queued()), polls + 1;
        }
        var next := e.(next := i + 1, sent := e.sent + 1, log := e.log + [j.At(i)]);
        DriverKeeps(j, m0, e, mem, next);
        e := next;
      }
      EngineBounds(j, e);
      while !e.irq
        invariant e.next == |j.hpages| && Dma.Inv(j, m0, e, mem) && e.Queued() >= 0
        decreases e.Queued()
      {
        AllDoneInterrupts(j, e);
        e := CardWorks(j, e, 1 + pace(polls), m0);
        polls := polls + 1;
      }
      InterruptMeansDone(j, e);
    }

    /** Set a buffer's flag, migrate it and map a window of it. */
    method MigrateAndMap(i: nat, side: nat, w: Window)
      requires c.Valid() && i < |buffers| && BufferOk(c, buffers[i]) && WindowOk(c, buffers[i], w)
      requires side == HOST_ACCESS || side == CARD_ACCESS
      modifies this
      ensures S() == Placed(c, old(S()), i, side, w, old(tlb))
    {
      hide FramesOk, WindowEntries, CopiedAll;
      SideOk(c, buffers[i], side, w);
      buffers := buffers[i := buffers[i].(host := side)];
      Migrate(JobOf(buffers[i]));
      TlbMapGup(buffers[i], w);
    }

    /** The same for a buffer that may be mapped: unmap it first. */
    method Place(i: nat, side: nat, w: Window)
      requires c.Valid() && i < |buffers| && BufferOk(c, buffers[i]) && WindowOk(c, buffers[i], w)
      requires side == HOST_ACCESS || side == CARD_ACCESS
      modifies this
      ensures S() == Placed(c, old(S()), i, side, w, Cleared(c, old(tlb), old(buffers)[i]))
    {
      hide BufferOk, Invalidated, WindowEntries, Invalidations, Migrated;
      var requests := TlbUnmapGup(buffers[i]);
      MigrateAndMap(i, side, w);
    }

    /** `mmu_handler_gup`; `grant` is the outcome of pinning and allocating for a window. */
    method MmuHandlerGup(f: Fault, grant: Window -> Option<Grant>)
      returns (ret: int, ghost hit: Option<nat>, ghost w: Window)
      requires c.Valid() && Ok(c, S()) && f.ctid < |c.hpid|
      requires forall v :: grant(v).Some? ==> GrantOk(c, grant(v).value, v, f.huge, f.ctid)
      modifies this
      ensures FaultStep(c, old(S()), f, grant(w), hit, w, S(), ret) && Ok(c, S())
      ensures ret == if hit.Some? then (if f.stream == HOST_ACCESS || f.stream == CARD_ACCESS then 0 else -EINVAL)
                     else if w.n == 0 || grant(w).None? then -ENOMEM
                     else if grant(w).value.needsSync then BUFF_NEEDS_EXP_SYNC_RET_CODE else 0
    {
      hide Low, Shr, Pow2, FramesOk, TlbOk, MoveOk, NonZero, FaultWindow, Placed, WindowEntries;
      ghost var s := S();
      var w0 := FaultWindow(c.g, f.huge, f.addr, f.len);
      TableDisjoint(c, S(), f.ctid);
      var at, n := MapPresent(buffers, f.ctid, w0);
      var win := Window(w0.vaddr, n);
      hit, w := at, win;
      ret := 0;
      if at.Some? {
        var i := at.value;
        if f.stream != HOST_ACCESS && f.stream != CARD_ACCESS {
          ret := -EINVAL;
        } else if buffers[i].host == f.stream {
          TlbMapGup(buffers[i], win);
        } else {
          Place(i, f.stream, win);
        }
      } else {
        var g := grant(win);
        if n == 0 || g.None? {
          return -ENOMEM, hit, w;
        }
        var b := NewBuffer(g.value, win, f.huge, f.ctid);
        NewWindowOk(c, b, win);
        buffers := [b] + buffers;
        if g.value.needsSync {
          ret := BUFF_NEEDS_EXP_SYNC_RET_CODE;
        }
        if f.stream != CARD_ACCESS {
          TlbMapGup(b, win);
        } else {
          MigrateAndMap(0, CARD_ACCESS, win);
        }
      }
      assert FaultStep(c, s, f, grant(w), hit, w, S(), ret);
      FaultOk(c, s, f, grant(w), hit, w, S(), ret);
    }

    /** One pass of the offload and sync loops over a hash chain. */
    method MoveChain(at: nat, ctid: nat, hash: nat -> nat, side: nat) returns (at': nat, any: bool)
      requires c.Valid() && AllOk(c, buffers) && (side == HOST_ACCESS || side == CARD_ACCESS)
      modifies this
      ensures var t := Table(old(buffers), ctid, hash);
              var moves := t.Taken(hash(at), 0, at);
              && at' == t.Pass(hash(at), 0, at) && (any <==> moves != [])
              && InTable(moves, |old(buffers)|)
              && S() == ForcedAll(c, old(S()), moves, side)
    {
      hide BufferOk, Forced, ForcedAll;
      ghost var t, bucket := Table(buffers, ctid, hash), hash(at);
      ghost var moves: seq<nat> := [];
      any, at' := false, at;
      ForcedNone(c, S(), side);
      for i := 0 to |buffers|
        invariant AllOk(c, buffers) && |buffers| == |t.bs|
        invariant InTable(moves, |t.bs|)
        invariant S() == ForcedAll(c, old(S()), moves, side)
        invariant t.Pass(bucket, 0, at) == t.Pass(bucket, i, at')
        invariant t.Taken(bucket, 0, at) == moves + t.Taken(bucket, i, at')
        invariant any <==> moves != []
      {
        ForcedAllSides(c, old(S()), moves, side, i);
        if buffers[i].ctid == ctid && hash(buffers[i].vaddr) == hash(at) && buffers[i].Contains(at') {
          ForcedSnoc(c, old(S()), moves, i, side);
          MoveBuffer(i, side);
          SplitTaken(moves, i, t.Taken(bucket, i + 1, at' + t.bs[i].Pages()));
          moves := moves + [i];
          any := true;
          at' := at' + buffers[i].Pages();
        }
      }
      assert moves + [] == moves;
    }

    method MoveBuffer(i: nat, side: nat)
      requires c.Valid() && i < |buffers| && BufferOk(c, buffers[i]) && (side == HOST_ACCESS || side == CARD_ACCESS)
      modifies this
      ensures S() == Forced(c, old(S()), i, side)
    {
      hide BufferOk, Placed;
      NewWindowOk(c, buffers[i], Whole(buffers[i]));
      Place(i, side, Whole(buffers[i]));
    }

    /** `offload_user_pages` and `sync_user_pages`, from page `v` to page `last`. */
    method MoveUserPages(v: nat, last: nat, ctid: nat, hash: nat -> nat, side: nat) returns (ret: int)
      requires c.Valid() && Ok(c, S()) && (side == HOST_ACCESS || side == CARD_ACCESS)
      requires Table(buffers, ctid, hash).Ends(v, last)
      modifies this
      ensures CallStep(c, hash, old(S()), MoveRange(v, last, ctid, side), S()) && Ok(c, S())
      ensures var moves := Table(old(buffers), ctid, hash).Loop(v, last);
              && InTable(moves, |old(buffers)|)
              && S() == ForcedAll(c, old(S()), moves, side)
              && ret == (if moves == [] then 1 else 0)
    {
      hide BufferOk, TlbOk, MoveOk, ForcedAll;
      ghost var t := Table(buffers, ctid, hash);
      ghost var moves: seq<nat> := [];
      ret := 1;
      var at: nat := v;
      ForcedNone(c, S(), side);
      while at <= last
        invariant t.Ends(at, last) && t.Loop(v, last) == moves + t.Loop(at, last)
        invariant InTable(moves, |t.bs|)
        invariant AllOk(c, buffers) && S() == ForcedAll(c, old(S()), moves, side)
        invariant ret == (if moves == [] then 1 else 0)
        decreases last + 1 - at
      {
        ghost var t1, s1 := Table(buffers, ctid, hash), S();
        ghost var taken := t.Taken(hash(at), 0, at);
        TakenInTable(t, hash(at), 0, at);
        SameChains(c, old(S()), moves, side, t, t1, hash(at), 0, at);
        var next, any := MoveChain(at, ctid, hash, side);
        ForcedConcat(c, old(S()), moves, taken, side);
        SplitLoop(moves, taken, t.Loop(next, last));
        moves := moves + taken;
        if any {
          ret := 0;
        }
        at := next;
      }
      assert moves + [] == moves;
      ForcedAllOk(c, old(S()), moves, side);
    }

    /** Unmap one buffer and take it off the table. */
    method ReleaseBuffer(i: nat)
      requires c.Valid() && i < |buffers| && BufferOk(c, buffers[i])
      modifies this
      ensures S() == Released(c, old(S()), i)
    {
      hide FramesOk, NonZero, Invalidated, Invalidations;
      var requests := TlbUnmapGup(buffers[i]);
      buffers := buffers[..i] + buffers[i + 1..];
    }

    /** `tlb_put_user_pages`: the first buffer of the chain of page `v` that passes the test goes. */
    method TlbPutUserPages(v: nat, ctid: nat, hash: nat -> nat)
      requires c.Valid() && Ok(c, S())
      modifies this
      ensures CallStep(c, hash, old(S()), Put(v, ctid), S()) && Ok(c, S())
      ensures buffers == Kept(old(buffers), ctid, hash, v) && mem == old(mem)
    {
      hide Ok, Releases;
      ghost var s := S();
      ghost var f := Found(buffers, ctid, hash, v);
      var i := 0;
      while i < |buffers|
        invariant i <= |buffers| && i <= f && S() == s
      {
        if Releases(buffers[i], ctid, hash, v) {
          OkBuffer(c, s, i);
          ReleaseBuffer(i);
          CallOk(c, hash, s, Put(v, ctid), S());
          return;
        }
        i := i + 1;
      }
    }
  }

  lemma EngineBounds(j: Job, e: Engine)
    requires j.Valid() && EngineInv(j, e)
    ensures 0 <= e.Queued() <= e.sent <= DMA_THRSH
  {
  }

  lemma DriverKeeps(j: Job, m0: Memories, e: Engine, m: Memories, e': Engine)
    requires j.Valid() && Dma.Inv(j, m0, e, m) && e.next < |j.hpages|
    requires if j.Skips(e.next) then e' == e.(next := e.next + 1)
             else if e.sent >= DMA_THRSH then e' == e.(sent := e.Queued()) && e.Queued() >= 0
             else e' == e.(next := e.next + 1, sent := e.sent + 1, log := e.log + [j.At(e.next)])
    ensures Dma.Inv(j, m0, e', m)
  {
    assert DriverStep(j, e, e');
    InvStep(j, m0, e, m, e', m);
  }

  /** While the interrupt is missing at the end, a command is still in the queue. */
  lemma AllDoneInterrupts(j: Job, e: Engine)
    requires j.Valid() && EngineInv(j, e) && e.next == |j.hpages| > 0 && !j.Skips(|j.hpages| - 1) && !e.irq
    ensures e.Queued() > 0
  {
    assert j.Commands(e.next) == [] && e.log + [] == e.log;
    InterruptPossible(j);
    var k :| 0 <= k < |j.Commands(0)| && j.Commands(0)[k].last;
    assert e.log[k].last;
  }

  lemma SplitTaken(a: seq<nat>, i: nat, b: seq<nat>)
    ensures a + ([i] + b) == (a + [i]) + b
  {
  }

  lemma SplitLoop(a: seq<nat>, b: seq<nat>, c: seq<nat>)
    ensures a + (b + c) == (a + b) + c
  {
  }

  lemma ForcedNone(c: Config, s: State, side: nat)
    requires c.Valid() && AllOk(c, s.buffers) && (side == HOST_ACCESS || side == CARD_ACCESS)
    ensures ForcedAll(c, s, [], side) == s
  {
  }

  /** Moving buffers does not change which chains they are in nor which pages they hold. */
  lemma {:induction false} SameChains(c: Config, s: State, moves: seq<nat>, side: nat, t: Table, t': Table,
                                      bucket: nat, i: nat, v: nat)
    requires c.Valid() && AllOk(c, s.buffers) && (side == HOST_ACCESS || side == CARD_ACCESS)
    requires InTable(moves, |s.buffers|)
    requires t.bs == s.buffers && t' == t.(bs := ForcedAll(c, s, moves, side).buffers) && i <= |t.bs|
    ensures t'.Taken(bucket, i, v) == t.Taken(bucket, i, v) && t'.Pass(bucket, i, v) == t.Pass(bucket, i, v)
    decreases |t.bs| - i
  {
    hide BufferOk, ForcedAll;
    if i < |t.bs| {
      ForcedAllSides(c, s, moves, side, i);
      var next := if t.InChain(i, bucket) && t.bs[i].Contains(v) then v + t.bs[i].Pages() else v;
      SameChains(c, s, moves, side, t, t', bucket, i + 1, next);
    }
  }

  lemma {:induction false} ForcedConcat(c: Config, s: State, a: seq<nat>, b: seq<nat>, side: nat)
    requires c.Valid() && AllOk(c, s.buffers) && (side == HOST_ACCESS || side == CARD_ACCESS)
    requires InTable(a, |s.buffers|) && InTable(b, |s.buffers|)
    ensures InTable(a + b, |s.buffers|)
    ensures ForcedAll(c, s, a + b, side) == ForcedAll(c, ForcedAll(c, s, a, side), b, side)
    decreases |b|
  {
    hide BufferOk, Forced;
    if b == [] {
      assert a + b == a;
    } else {
      var n := |b| - 1;
      ForcedConcat(c, s, a, b[..n], side);
      assert (a + b)[..|a| + n] == a + b[..n];
    }
  }

  lemma ForcedSnoc(c: Config, s: State, moves: seq<nat>, i: nat, side: nat)
    requires c.Valid() && AllOk(c, s.buffers) && (side == HOST_ACCESS || side == CARD_ACCESS)
    requires InTable(moves, |s.buffers|) && i < |s.buffers|
    ensures InTable(moves + [i], |s.buffers|)
    ensures ForcedAll(c, s, moves + [i], side) == Forced(c, ForcedAll(c, s, moves, side), i, side)
  {
    hide BufferOk, Forced;
    assert (moves + [i])[..|moves|] == moves;
  }

  lemma NewWindowOk(c: Config, b: Buffer, w: Window)
    requires c.Valid() && BufferOk(c, b) && b.vaddr == w.vaddr && b.Pages() == w.n
    ensures WindowOk(c, b, w)
  {
    hide FramesOk, NonZero;
  }

  lemma WalkEnd(g: Geometry, fs: seq<nat>, vaddr: nat, huge: bool, i: nat)
    requires g.Valid() && i >= |fs|
    ensures Walk(g, fs, vaddr, huge, i) == []
  {
  }

  lemma AddUnmapped(g: Geometry, tlb: set<Entry>, vaddr: nat, steps: seq<Step>, s: Step, hpid: nat)
    requires g.Valid()
    ensures Unmapped(g, tlb, vaddr, steps + [s], hpid)
         == set e | e in Unmapped(g, tlb, vaddr, steps, hpid)
                    && !(e.huge == s.huge && e.hpid == hpid && Covers(g, e, vaddr + s.at))
  {
    hide Covers;
    assert forall x :: x in steps + [s] <==> x in steps || x == s;
    forall e ensures HitBy(g, e, vaddr, steps + [s], hpid)
                <==> || HitBy(g, e, vaddr, steps, hpid)
                     || (e.huge == s.huge && e.hpid == hpid && Covers(g, e, vaddr + s.at))
    {
      assert s in steps + [s];
    }
  }

  /** Requests never run past the end of the buffer. */
  lemma WholeRequest(c: Config, b: Buffer, i: nat)
    requires c.Valid() && BufferOk(c, b) && i < b.Pages() && (b.huge ==> c.g.large.Offset(i) == 0)
    ensures i + (if b.huge then c.g.PagesInHuge() else 1) <= b.Pages()
    ensures b.huge ==> c.g.large.Offset(i + c.g.PagesInHuge()) == 0
  {
    hide Low, Shr, Pow2;
    if b.huge {
      GroupInside(c.g, i, b.Pages());
      OffsetInGroup(c.g, i, c.g.PagesInHuge());
    }
  }

  lemma NothingInvalidated(g: Geometry, tlb: set<Entry>, page: nat, hpid: nat)
    requires g.Valid()
    ensures Invalidated(g, tlb, page, 0, hpid) == tlb
  {
  }

  lemma InvalidatedTwice(g: Geometry, tlb: set<Entry>, page: nat, a: nat, b: nat, hpid: nat)
    requires g.Valid()
    ensures Invalidated(g, Invalidated(g, tlb, page, a, hpid), page + a, b, hpid)
         == Invalidated(g, tlb, page, a + b, hpid)
  {
    hide Overlaps;
    forall e ensures Overlaps(g, e, page, a + b) <==> Overlaps(g, e, page, a) || Overlaps(g, e, page + a, b) {
      OverlapsSplit(g, e, page, a, b);
    }
  }

  lemma UnmappedThenCleared(c: Config, tlb: set<Entry>, b: Buffer)
    requires c.Valid() && BufferOk(c, b)
    ensures var left := Unmapped(c.g, tlb, b.vaddr, Walk(c.g, b.Frames(), b.vaddr, b.huge, 0), c.hpid[b.ctid]);
            Cleared(c, left, b) == Cleared(c, tlb, b)
  {
    hide Overlaps, Walk, HitBy, FramesOk, NonZero;
    var fs := b.Frames();
    forall e | HitBy(c.g, e, b.vaddr, Walk(c.g, fs, b.vaddr, b.huge, 0), c.hpid[b.ctid])
      ensures e.hpid == c.hpid[b.ctid] && Overlaps(c.g, e, b.vaddr, b.Pages())
    {
      HitOverlaps(c.g, fs, b.vaddr, b.huge, e, c.hpid[b.ctid]);
    }
  }

  /** The walk has been cut where `MapSteps` cuts it. */
  lemma WalkCut(g: Geometry, fs: seq<nat>, vaddr: nat, huge: bool, i: nat, done: seq<Step>)
    requires g.Valid() && Walk(g, fs, vaddr, huge, 0) == done + Walk(g, fs, vaddr, huge, i)
    requires |done| <= MAX_N_MAP_PAGES && (i < |fs| ==> |done| == MAX_N_MAP_PAGES)
    ensures done == MapSteps(g, fs, vaddr, huge)
  {
    var w := Walk(g, fs, vaddr, huge, 0);
    assert done == w[..|done|];
    if i >= |fs| { assert Walk(g, fs, vaddr, huge, i) == []; }
  }

  /** Where the map loop is: the part of the walk that is done, and the entries it wrote. */
  ghost predicate MapProgress(g: Geometry, fs: seq<nat>, vaddr: nat, huge: bool, o: Owner, base: set<Entry>,
                              tlb: set<Entry>, i: nat, done: seq<Step>)
    requires g.Valid()
  {
    && Walk(g, fs, vaddr, huge, 0) == done + Walk(g, fs, vaddr, huge, i)
    && tlb == base + StepEntries(g, fs, vaddr, done, o)
  }

  lemma MapStarts(g: Geometry, fs: seq<nat>, vaddr: nat, huge: bool, o: Owner, base: set<Entry>)
    requires g.Valid()
    ensures MapProgress(g, fs, vaddr, huge, o, base, base, 0, [])
  {
    hide Walk;
    assert StepEntries(g, fs, vaddr, [], o) == {};
  }

  lemma MapGoesOn(g: Geometry, fs: seq<nat>, vaddr: nat, huge: bool, o: Owner, base: set<Entry>,
                  tlb: set<Entry>, i: nat, done: seq<Step>, h: bool)
    requires g.Valid() && MapProgress(g, fs, vaddr, huge, o, base, tlb, i, done)
    requires i < |fs| && h == (huge || CanCoalesce(g, fs, vaddr, i))
    ensures MapProgress(g, fs, vaddr, huge, o, base,
                        tlb + {MappedEntry(g, h, vaddr + i, fs[i], o.host, o.ctid, o.hpid)},
                        i + (if h then g.PagesInHuge() else 1), done + [Step(i, h)])
  {
    hide Walk, CanCoalesce, MappedEntry;
    WalkStep(g, fs, vaddr, huge, i, h, done);
    AddStepEntry(g, fs, vaddr, done, Step(i, h), o, base);
    hide StepEntries;
  }

  lemma MapEnds(g: Geometry, fs: seq<nat>, vaddr: nat, huge: bool, o: Owner, base: set<Entry>,
                tlb: set<Entry>, i: nat, done: seq<Step>)
    requires g.Valid() && MapProgress(g, fs, vaddr, huge, o, base, tlb, i, done)
    requires |done| <= MAX_N_MAP_PAGES && (i < |fs| ==> |done| == MAX_N_MAP_PAGES)
    ensures tlb == base + StepEntries(g, fs, vaddr, MapSteps(g, fs, vaddr, huge), o)
  {
    hide Walk, StepEntries, MapSteps;
    WalkCut(g, fs, vaddr, huge, i, done);
  }

  lemma AddStepEntry(g: Geometry, fs: seq<nat>, vaddr: nat, steps: seq<Step>, s: Step, o: Owner, base: set<Entry>)
    requires g.Valid() && s.at < |fs|
    ensures base + StepEntries(g, fs, vaddr, steps + [s], o)
         == base + StepEntries(g, fs, vaddr, steps, o) + {StepEntry(g, fs, vaddr, s, o)}
  {
    hide StepEntry;
  }
}
