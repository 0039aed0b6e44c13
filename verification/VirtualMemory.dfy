/**
 The memory manager of a vFPGA as a protocol. Driver, card and FPGA take steps in any order:
 buffers are created, mapped, moved between host and card by DMA, and released; TLB entries are
 evicted; the FPGA reads and writes through whatever the TLBs hold. On every run each entry leads to
 the page its buffer's flag selects, and none into a buffer in flight, whoever shares frames.
 */
module VirtualMemory {
  import opened Bits
  import opened Tlb
  import opened TlbMapping
  import opened BufferTable
  import opened Wrappers
  import opened Dma

  const N_CTID_MAX: nat := 64

  /** TLB geometry and the host process of every Coyote thread (`pid_array`). */
  datatype Config = Config(g: Geometry, hpid: seq<nat>)
  {
    predicate Valid() {
      g.Valid() && |hpid| <= N_CTID_MAX && forall i :: 0 <= i < |hpid| ==> hpid[i] < Pow2(32)
    }
  }

  /** A buffer as `tlb_get_user_pages` builds it. */
  ghost predicate BufferOk(c: Config, b: Buffer)
    requires c.Valid()
  {
    && |b.cpages| == |b.hpages| > 0
    && b.ctid < |c.hpid| && (b.host == HOST_ACCESS || b.host == CARD_ACCESS)
    && b.End() <= Pow2(TLB_VADDR_RANGE - PAGE_SHIFT)
    && FramesOk(c.g, b.hpages, b.vaddr, b.huge) && FramesOk(c.g, b.cpages, b.vaddr, b.huge)
    && NonZero(JobOf(b))
  }

  /** The migration that brings a buffer to the side its flag already names. */
  function JobOf(b: Buffer): Job {
    Job(if b.host == HOST_ACCESS then ToHost else ToCard, b.hpages, b.cpages)
  }

  /** A migration in flight: the buffer, the window to map afterwards, driver and queue. */
  datatype Move = Move(index: nat, window: Window, eng: Engine)

  datatype State = State(buffers: seq<Buffer>, tlb: set<Entry>, mem: Memories, move: Option<Move>)
  {
    predicate Moving(i: nat) { move.Some? && move.value.index == i }
  }

  // ---------------------------------------------------------------------------------------------
  // Entries and buffers
  // ---------------------------------------------------------------------------------------------

  /** The entry belongs to the buffer and translates every page it covers to the current frame. */
  ghost predicate Backs(c: Config, b: Buffer, e: Entry)
    requires c.Valid()
  {
    && b.ctid < |c.hpid| && |b.cpages| == |b.hpages|
    && e.ctid == b.ctid && e.hpid == c.hpid[b.ctid] && e.strm == b.host
    && forall p: nat :: Covers(c.g, e, p) ==> b.Contains(p) && Translate(c.g, e, p) == b.Frames()[p - b.vaddr]
  }

  /** Backed by a live buffer that is not in flight. */
  ghost predicate Backed(c: Config, s: State, e: Entry)
    requires c.Valid()
  {
    exists i: nat :: i < |s.buffers| && !s.Moving(i) && Backs(c, s.buffers[i], e)
  }

  /** No entry leads into a buffer. */
  ghost predicate NeverMapped(c: Config, tlb: set<Entry>, b: Buffer)
    requires c.Valid()
  {
    forall e :: e in tlb ==> !Backs(c, b, e)
  }

  /** The window lies in the buffer; on a huge buffer it need not begin or end at a huge page. */
  ghost predicate WindowOk(c: Config, b: Buffer, w: Window)
    requires c.Valid()
  {
    b.vaddr <= w.vaddr && w.End() <= b.End()
  }

  ghost function WindowFrames(b: Buffer, w: Window): seq<nat>
    requires b.vaddr <= w.vaddr && w.End() <= b.End() && |b.cpages| == |b.hpages|
  {
    b.Frames()[w.vaddr - b.vaddr..w.End() - b.vaddr]
  }

  /** The entries that mapping a window of a buffer creates. */
  ghost function WindowEntries(c: Config, b: Buffer, w: Window): set<Entry>
    requires c.Valid() && BufferOk(c, b) && WindowOk(c, b, w)
  {
    var fs := WindowFrames(b, w);
    StepEntries(c.g, fs, w.vaddr, MapSteps(c.g, fs, w.vaddr, b.huge), Owner(b.host, b.ctid, c.hpid[b.ctid]))
  }

  /** The TLBs after a buffer was unmapped. */
  ghost function Cleared(c: Config, tlb: set<Entry>, b: Buffer): set<Entry>
    requires c.Valid() && b.ctid < |c.hpid|
  {
    Invalidated(c.g, tlb, b.vaddr, b.Pages(), c.hpid[b.ctid])
  }

  lemma CoversOwnPage(g: Geometry, e: Entry)
    requires g.Valid()
    ensures Covers(g, e, e.vpn * g.Span(e.huge))
  {
    ShlShr(e.vpn, g.Meta(e.huge).pageShift - PAGE_SHIFT);
  }

  /** Unmapping a buffer removes every entry that belongs to it. */
  lemma ClearedRemoves(c: Config, tlb: set<Entry>, b: Buffer, e: Entry)
    requires c.Valid() && Backs(c, b, e)
    ensures e !in Cleared(c, tlb, b)
  {
    hide Low, Shr, Pow2;
    CoversOwnPage(c.g, e);
    OverlapsCovers(c.g, e, b.vaddr, b.Pages(), e.vpn * c.g.Span(e.huge));
  }

  /** Unmapping a buffer removes the entries of its process that cover one of its pages, and no others. */
  lemma ClearedExact(c: Config, tlb: set<Entry>, b: Buffer, e: Entry)
    requires c.Valid() && b.ctid < |c.hpid|
    ensures e in Cleared(c, tlb, b)
       <==> e in tlb && !(e.hpid == c.hpid[b.ctid] && exists p: nat :: b.Contains(p) && Covers(c.g, e, p))
  {
    hide Covers, Overlaps;
    if Overlaps(c.g, e, b.vaddr, b.Pages()) { var p := OverlapWitness(c.g, e, b.vaddr, b.Pages()); }
    if p: nat :| b.Contains(p) && Covers(c.g, e, p) { OverlapsCovers(c.g, e, b.vaddr, b.Pages(), p); }
  }

  lemma OffsetAdd(g: Geometry, a: nat, b: nat)
    requires g.Valid() && g.large.Offset(a) == 0
    ensures g.large.Offset(a + b) == g.large.Offset(b)
  {
    var o := g.large.pageShift - PAGE_SHIFT;
    ShrLow(a, o);
    ShrAdd(b, Shr(a, o), o);
  }

  lemma GroupInside(g: Geometry, i: nat, n: nat)
    requires g.Valid() && i < n && g.large.Offset(i) == 0 && g.large.Offset(n) == 0
    ensures i + g.PagesInHuge() <= n
  {
    var o := g.large.pageShift - PAGE_SHIFT;
    ShrLow(i, o);
    ShrLow(n, o);
    if Shr(n, o) <= Shr(i, o) { MulMono(Shr(n, o), Shr(i, o), Pow2(o)); }
    MulMono(Shr(i, o) + 1, Shr(n, o), Pow2(o));
    Distribute(Shr(i, o), 1, Pow2(o));
  }

  /** Where the huge page of a position inside a huge run begins. */
  ghost function GroupStart(g: Geometry, at: nat): nat
    requires g.Valid() && g.large.Offset(at) <= at
  {
    at - g.large.Offset(at)
  }

  /** A position in an aligned run: its huge page, and its place inside. */
  lemma GroupSplit(g: Geometry, vaddr: nat, at: nat)
    requires g.Valid() && g.large.Offset(vaddr) == 0
    ensures g.large.Offset(at) <= at && g.large.Offset(GroupStart(g, at)) == 0
    ensures g.large.Vpn(vaddr + at) == g.large.Vpn(vaddr + GroupStart(g, at))
  {
    hide Low, Shr, Pow2;
    var k := g.large.pageShift - PAGE_SHIFT;
    var a, q, o := Shr(vaddr, k), Shr(at, k), Low(at, k);
    ShrLow(vaddr, k);
    ShrLow(at, k);
    MulNonNeg(q, Pow2(k));
    Distribute(a, q, Pow2(k));
    Unique(at - o, k, q, 0);
    Unique(vaddr + at, k, a + q, o);
    Unique(vaddr + (at - o), k, a + q, 0);
  }

  /** All 4 KB frames of an aligned huge page have the frame number of that page. */
  lemma FrameOfGroup(m: TlbMeta, base: nat, o: nat)
    requires m.Valid() && Low(base, m.pageShift) == 0 && o < m.Span()
    ensures m.Pfn(base + o * PAGE_SIZE) == m.Pfn(base)
  {
    hide Low, Shr;
    var f := Shr(base, m.pageShift);
    ShrLow(base, m.pageShift);
    Pow2Add(m.pageShift - PAGE_SHIFT, PAGE_SHIFT);
    assert Pow2(PAGE_SHIFT) == PAGE_SIZE;
    hide Pow2;
    assert o * PAGE_SIZE < Pow2(m.pageShift) by { MulMono(o + 1, m.Span(), PAGE_SIZE); }
    Unique(base + o * PAGE_SIZE, m.pageShift, f, o * PAGE_SIZE);
  }

  /** Mapping from the middle of a huge page writes the entry of the whole huge page. */
  lemma GroupEntry(g: Geometry, fs: seq<nat>, vaddr: nat, at: nat, o: Owner)
    requires g.Valid() && FramesOk(g, fs, vaddr, true) && at < |fs|
    ensures g.large.Offset(at) <= at
    ensures var q := GroupStart(g, at);
            && CanCoalesce(g, fs, vaddr, q)
            && MappedEntry(g, true, vaddr + at, fs[at], o.host, o.ctid, o.hpid)
               == StepEntry(g, fs, vaddr, Step(q, true), o)
  {
    hide Low, Shr, Pow2;
    GroupSplit(g, vaddr, at);
    var q := GroupStart(g, at);
    assert CanCoalesce(g, fs, vaddr, q);
    FrameOfGroup(g.large, fs[q], at - q);
  }

  lemma {:induction false} HugeWalk(g: Geometry, fs: seq<nat>, vaddr: nat, i: nat, s: Step)
    requires g.Valid() && s in Walk(g, fs, vaddr, true, i)
    ensures s.huge
    decreases |fs| - i
  {
    hide Low, Shr, Pow2;
    if i < |fs| {
      WalkStep(g, fs, vaddr, true, i, true, []);
      assert Walk(g, fs, vaddr, true, i) == [Step(i, true)] + Walk(g, fs, vaddr, true, i + g.PagesInHuge());
      if s != Step(i, true) { HugeWalk(g, fs, vaddr, i + g.PagesInHuge(), s); }
    }
  }

  /** Every entry created for a window belongs to the buffer. */
  lemma WindowEntriesBack(c: Config, b: Buffer, w: Window, e: Entry)
    requires c.Valid() && BufferOk(c, b) && WindowOk(c, b, w) && e in WindowEntries(c, b, w)
    ensures Backs(c, b, e)
  {
    var o := Owner(b.host, b.ctid, c.hpid[b.ctid]);
    forall p: nat | Covers(c.g, e, p)
      ensures b.Contains(p) && Translate(c.g, e, p) == b.Frames()[p - b.vaddr]
    {
      WindowEntryExact(c, b, w, e, p);
    }
    assert Owned(e, o) by { EntriesOwned(c.g, WindowFrames(b, w), w.vaddr, b.huge, o, e); }
  }

  lemma WindowEntryExact(c: Config, b: Buffer, w: Window, e: Entry, p: nat)
    requires c.Valid() && BufferOk(c, b) && WindowOk(c, b, w) && e in WindowEntries(c, b, w) && Covers(c.g, e, p)
    ensures b.Contains(p) && Translate(c.g, e, p) == b.Frames()[p - b.vaddr]
  {
    hide Low, Shr, Pow2;
    var fs := WindowFrames(b, w);
    if b.huge {
      HugeEntryExact(c, b, w, e, p);
    } else {
      MapEntryExact(c.g, fs, w.vaddr, false, Owner(b.host, b.ctid, c.hpid[b.ctid]), e, p);
      assert fs[p - w.vaddr] == b.Frames()[p - b.vaddr];
    }
  }

  lemma HugeEntryExact(c: Config, b: Buffer, w: Window, e: Entry, p: nat)
    requires c.Valid() && BufferOk(c, b) && WindowOk(c, b, w) && b.huge
    requires e in WindowEntries(c, b, w) && Covers(c.g, e, p)
    ensures b.Contains(p) && Translate(c.g, e, p) == b.Frames()[p - b.vaddr]
  {
    hide Low, Shr, Pow2, InRange, WholeHuge, CanCoalesce, Walk, Covers, Translate, NonZero;
    var g, fs, o := c.g, b.Frames(), Owner(b.host, b.ctid, c.hpid[b.ctid]);
    var part := WindowFrames(b, w);
    var s :| s in MapSteps(g, part, w.vaddr, true) && s.at < |part| && e == StepEntry(g, part, w.vaddr, s, o);
    HugeWalk(g, part, w.vaddr, 0, s);
    var at := w.vaddr - b.vaddr + s.at;
    GroupEntry(g, fs, b.vaddr, at, o);
    assert part[s.at] == fs[at] && w.vaddr + s.at == b.vaddr + at;
    StepExact(g, fs, b.vaddr, Step(GroupStart(g, at), true), o, p);
  }

  // ---------------------------------------------------------------------------------------------
  // Steps
  // ---------------------------------------------------------------------------------------------

  datatype Event =
    | Create(b: Buffer)
    | MapWindow(i: nat, w: Window)
    | BeginMove(i: nat, w: Window)
    | FirstMove(i: nat, w: Window)
    | MoveInPlace(i: nat, w: Window)
    | Transfer
    | EndMove
    | Release(i: nat)
    | Evict(e: Entry)
    | FpgaWrite(e: Entry, page: nat, data: Data)
    | CpuWrite(i: nat, k: nat, data: Data)
    | CpuOther(a: nat, data: Data)

  /** A new buffer's pages are nobody else's; its frames may be. */
  ghost predicate Fresh(c: Config, s: State, b: Buffer)
    requires c.Valid()
  {
    && BufferOk(c, b) && b.host == HOST_ACCESS
    && (forall i :: 0 <= i < |s.buffers| && s.buffers[i].ctid == b.ctid ==> Apart(b, s.buffers[i]))
  }

  /** The buffer with its flag set to the other side. */
  function Flipped(b: Buffer): Buffer {
    b.(host := if b.host == HOST_ACCESS then CARD_ACCESS else HOST_ACCESS)
  }

  function Stored(m: Memories, side: nat, a: nat, d: Data): Memories {
    if side == HOST_ACCESS then m.(host := m.host[a := d]) else m.(card := m.card[a := d])
  }

  /**
   One step. `BeginMove` is the driver's unmap, flag flip and start of DMA; `FirstMove` is the same
   without the unmap, for a buffer that was never mapped; `MoveInPlace` is an offload or sync of a
   buffer that is already on the requested side. `Transfer` is one step of driver or card during the
   migration; `EndMove` is the wake-up by the interrupt and the map call after it. The FPGA, the
   processor and the TLB replacement may act at any time; the processor writes its own copy of a
   page, wherever the buffer is, or host memory that belongs to no buffer.
   */
  ghost predicate ProtocolStep(c: Config, s: State, ev: Event, s': State)
    requires c.Valid()
  {
    match ev
    case Create(b) =>
      s.move.None? && Fresh(c, s, b) && s' == s.(buffers := [b] + s.buffers)
    case MapWindow(i, w) =>
      && s.move.None? && i < |s.buffers| && BufferOk(c, s.buffers[i]) && WindowOk(c, s.buffers[i], w)
      && s' == s.(tlb := s.tlb + WindowEntries(c, s.buffers[i], w))
    case BeginMove(i, w) =>
      && s.move.None? && i < |s.buffers| && BufferOk(c, s.buffers[i]) && WindowOk(c, s.buffers[i], w)
      && s' == s.(buffers := s.buffers[i := Flipped(s.buffers[i])],
                  tlb := Cleared(c, s.tlb, s.buffers[i]),
                  move := Some(Move(i, w, Start)))
    case FirstMove(i, w) =>
      && s.move.None? && i < |s.buffers| && BufferOk(c, s.buffers[i]) && WindowOk(c, s.buffers[i], w)
      && NeverMapped(c, s.tlb, s.buffers[i])
      && s' == s.(buffers := s.buffers[i := Flipped(s.buffers[i])], move := Some(Move(i, w, Start)))
    case MoveInPlace(i, w) =>
      && s.move.None? && i < |s.buffers| && BufferOk(c, s.buffers[i]) && WindowOk(c, s.buffers[i], w)
      && s' == s.(tlb := Cleared(c, s.tlb, s.buffers[i]), move := Some(Move(i, w, Start)))
    case Transfer =>
      && s.move.Some? && s'.move.Some? && s.move.value.index < |s.buffers|
      && JobOf(s.buffers[s.move.value.index]).Valid()
      && s' == s.(mem := s'.mem, move := Some(s.move.value.(eng := s'.move.value.eng)))
      && Next(JobOf(s.buffers[s.move.value.index]), s.move.value.eng, s.mem, s'.move.value.eng, s'.mem)
    case EndMove =>
      && s.move.Some? && s.move.value.index < |s.buffers| && s.move.value.eng.irq
      && BufferOk(c, s.buffers[s.move.value.index])
      && WindowOk(c, s.buffers[s.move.value.index], s.move.value.window)
      && s' == s.(tlb := s.tlb + WindowEntries(c, s.buffers[s.move.value.index], s.move.value.window),
                  move := None)
    case Release(i) =>
      && s.move.None? && i < |s.buffers| && s.buffers[i].ctid < |c.hpid|
      && s' == s.(buffers := s.buffers[..i] + s.buffers[i + 1..], tlb := Cleared(c, s.tlb, s.buffers[i]))
    case Evict(e) =>
      s' == s.(tlb := s.tlb - {e})
    case FpgaWrite(e, page, data) =>
      && e in s.tlb && Covers(c.g, e, page)
      && s' == s.(mem := Stored(s.mem, e.strm, Translate(c.g, e, page), data))
    case CpuWrite(i, k, data) =>
      && i < |s.buffers| && !s.Moving(i) && k < s.buffers[i].Pages()
      && s' == s.(mem := Stored(s.mem, HOST_ACCESS, s.buffers[i].hpages[k], data))
    case CpuOther(a, data) =>
      && (forall i :: 0 <= i < |s.buffers| ==> a !in s.buffers[i].hpages)
      && s' == s.(mem := Stored(s.mem, HOST_ACCESS, a, data))
  }

  // ---------------------------------------------------------------------------------------------
  // Invariant
  // ---------------------------------------------------------------------------------------------

  /** Every buffer is in order, and those of one thread hold different pages. */
  ghost predicate TableOk(c: Config, bs: seq<Buffer>)
    requires c.Valid()
  {
    && (forall i :: 0 <= i < |bs| ==> BufferOk(c, bs[i]))
    && (forall i, j :: 0 <= i < j < |bs| && bs[i].ctid == bs[j].ctid ==> Apart(bs[i], bs[j]))
  }

  /** Every entry in the TLBs is right, and none of them belongs to a buffer in flight. */
  ghost predicate TlbOk(c: Config, s: State)
    requires c.Valid()
  {
    forall e :: e in s.tlb ==> Backed(c, s, e)
  }

  /** The migration in flight: its buffer and window, and driver and queue consistent. */
  ghost predicate MoveOk(c: Config, s: State)
    requires c.Valid()
  {
    s.move.Some? ==>
      var mv := s.move.value;
      && mv.index < |s.buffers| && BufferOk(c, s.buffers[mv.index]) && WindowOk(c, s.buffers[mv.index], mv.window)
      && EngineInv(JobOf(s.buffers[mv.index]), mv.eng) && mv.eng.completed <= s.buffers[mv.index].Pages()
  }

  ghost predicate Ok(c: Config, s: State)
    requires c.Valid()
  {
    TableOk(c, s.buffers) && TlbOk(c, s) && MoveOk(c, s)
  }

  // ---------------------------------------------------------------------------------------------
  // Every step keeps the invariant
  // ---------------------------------------------------------------------------------------------

  /** Entries of other buffers do not notice that one buffer was unmapped and changed or dropped. */
  lemma StillBacked(c: Config, s: State, i: nat, e: Entry)
    requires c.Valid() && Ok(c, s) && i < |s.buffers| && e in Cleared(c, s.tlb, s.buffers[i])
    ensures exists k: nat :: k < |s.buffers| && k != i && !s.Moving(k) && Backs(c, s.buffers[k], e)
  {
    hide Covers, Translate, FramesOk;
    assert Backed(c, s, e);
    var k: nat :| k < |s.buffers| && !s.Moving(k) && Backs(c, s.buffers[k], e);
    if k == i { ClearedRemoves(c, s.tlb, s.buffers[i], e); }
  }

  lemma BackedAt(c: Config, s: State, k: nat, e: Entry)
    requires c.Valid() && k < |s.buffers| && !s.Moving(k) && Backs(c, s.buffers[k], e)
    ensures Backed(c, s, e)
  {
  }

  lemma CreateOk(c: Config, s: State, b: Buffer, s': State)
    requires c.Valid() && Ok(c, s) && ProtocolStep(c, s, Create(b), s')
    ensures Ok(c, s')
  {
    hide Backs, FramesOk, NonZero, EngineInv;
    var bs := s'.buffers;
    forall i | 0 <= i < |bs| ensures BufferOk(c, bs[i]) {
      if i > 0 { assert bs[i] == s.buffers[i - 1]; }
    }
    forall i, j | 0 <= i < j < |bs| && bs[i].ctid == bs[j].ctid ensures Apart(bs[i], bs[j]) {
      assert bs[j] == s.buffers[j - 1];
      if i > 0 { assert bs[i] == s.buffers[i - 1]; }
    }
    forall e | e in s'.tlb ensures Backed(c, s', e) {
      assert Backed(c, s, e);
      var k: nat :| k < |s.buffers| && !s.Moving(k) && Backs(c, s.buffers[k], e);
      assert bs[k + 1] == s.buffers[k];
      BackedAt(c, s', k + 1, e);
    }
  }

  lemma MapWindowOk(c: Config, s: State, i: nat, w: Window, s': State)
    requires c.Valid() && Ok(c, s) && ProtocolStep(c, s, MapWindow(i, w), s')
    ensures Ok(c, s')
  {
    hide Backs, FramesOk, NonZero, WindowEntries;
    forall e | e in s'.tlb ensures Backed(c, s', e) {
      if e in s.tlb {
        assert Backed(c, s, e);
        var k: nat :| k < |s.buffers| && !s.Moving(k) && Backs(c, s.buffers[k], e);
        BackedAt(c, s', k, e);
      } else {
        WindowEntriesBack(c, s.buffers[i], w, e);
        BackedAt(c, s', i, e);
      }
    }
  }

  lemma FlippedOk(c: Config, s: State, i: nat)
    requires c.Valid() && TableOk(c, s.buffers) && i < |s.buffers|
    ensures TableOk(c, s.buffers[i := Flipped(s.buffers[i])])
  {
    hide FramesOk;
    var bs, bs' := s.buffers, s.buffers[i := Flipped(s.buffers[i])];
    assert forall k :: 0 <= k < |bs| ==> bs'[k].hpages == bs[k].hpages && bs'[k].cpages == bs[k].cpages &&
                                         bs'[k].vaddr == bs[k].vaddr && bs'[k].ctid == bs[k].ctid;
    assert BufferOk(c, bs'[i]);
  }

  lemma BeginMoveOk(c: Config, s: State, i: nat, w: Window, s': State)
    requires c.Valid() && Ok(c, s) && ProtocolStep(c, s, BeginMove(i, w), s')
    ensures Ok(c, s')
  {
    hide Backs, FramesOk, NonZero, Cleared;
    FlippedOk(c, s, i);
    EngineStart(JobOf(Flipped(s.buffers[i])));
    hide EngineInv;
    forall e | e in s'.tlb ensures Backed(c, s', e) {
      StillBacked(c, s, i, e);
      var k: nat :| k < |s.buffers| && k != i && !s.Moving(k) && Backs(c, s.buffers[k], e);
      assert s'.buffers[k] == s.buffers[k];
      BackedAt(c, s', k, e);
    }
  }

  lemma FirstMoveOk(c: Config, s: State, i: nat, w: Window, s': State)
    requires c.Valid() && Ok(c, s) && ProtocolStep(c, s, FirstMove(i, w), s')
    ensures Ok(c, s')
  {
    hide Backs, FramesOk, NonZero, Cleared;
    FlippedOk(c, s, i);
    EngineStart(JobOf(Flipped(s.buffers[i])));
    hide EngineInv;
    forall e | e in s'.tlb ensures Backed(c, s', e) {
      assert Backed(c, s, e);
      var k: nat :| k < |s.buffers| && !s.Moving(k) && Backs(c, s.buffers[k], e);
      assert k != i && s'.buffers[k] == s.buffers[k];
      BackedAt(c, s', k, e);
    }
  }

  lemma EngineStart(j: Job)
    requires j.Valid()
    ensures EngineInv(j, Start)
  {
    InvStart(j, Memories(map[], map[]));
  }

  lemma MoveInPlaceOk(c: Config, s: State, i: nat, w: Window, s': State)
    requires c.Valid() && Ok(c, s) && ProtocolStep(c, s, MoveInPlace(i, w), s')
    ensures Ok(c, s')
  {
    hide Backs, FramesOk, NonZero, Cleared;
    EngineStart(JobOf(s.buffers[i]));
    hide EngineInv;
    forall e | e in s'.tlb ensures Backed(c, s', e) {
      StillBacked(c, s, i, e);
      var k: nat :| k < |s.buffers| && k != i && !s.Moving(k) && Backs(c, s.buffers[k], e);
      BackedAt(c, s', k, e);
    }
  }

  lemma DroppedOk(c: Config, bs: seq<Buffer>, i: nat)
    requires c.Valid() && TableOk(c, bs) && i < |bs|
    ensures TableOk(c, bs[..i] + bs[i + 1..])
  {
    hide BufferOk;
    var bs' := bs[..i] + bs[i + 1..];
    assert forall k :: 0 <= k < |bs'| ==> bs'[k] == bs[if k < i then k else k + 1];
  }

  lemma ReleaseOk(c: Config, s: State, i: nat, s': State)
    requires c.Valid() && Ok(c, s) && ProtocolStep(c, s, Release(i), s')
    ensures Ok(c, s')
  {
    hide BufferOk, Backs, EngineInv, Cleared, Backed;
    DroppedOk(c, s.buffers, i);
    forall e | e in s'.tlb ensures Backed(c, s', e) {
      StillBacked(c, s, i, e);
      var k: nat :| k < |s.buffers| && k != i && !s.Moving(k) && Backs(c, s.buffers[k], e);
      var k' := if k < i then k else k - 1;
      assert s'.buffers[k'] == s.buffers[k];
      BackedAt(c, s', k', e);
    }
  }

  /** With non-zero frames the k-th command of a migration is for the k-th page. */
  lemma CommandAt(c: Config, s: State, k: nat)
    requires c.Valid() && MoveOk(c, s) && s.move.Some? && k < |s.move.value.eng.log|
    ensures var j := JobOf(s.buffers[s.move.value.index]);
            k < |j.hpages| && s.move.value.eng.log[k] == j.At(k) && |j.Commands(0)| == |j.hpages|
  {
    hide FramesOk;
    var j := JobOf(s.buffers[s.move.value.index]);
    OnePerPage(j, 0);
    assert s.move.value.eng.log[k] == j.Commands(0)[k];
  }

  lemma TransferMoveOk(c: Config, s: State, s': State)
    requires c.Valid() && Ok(c, s) && ProtocolStep(c, s, Transfer, s')
    ensures MoveOk(c, s')
  {
    hide FramesOk, NonZero, TlbOk, TableOk;
    var mv := s.move.value;
    var j, e, e' := JobOf(s.buffers[mv.index]), mv.eng, s'.move.value.eng;
    EngineInvStep(j, e, s.mem, e', s'.mem);
    if CardStep(j, e, s.mem, e', s'.mem) { CommandAt(c, s, e.completed); }
    hide EngineInv;
  }

  lemma TransferOk(c: Config, s: State, s': State)
    requires c.Valid() && Ok(c, s) && ProtocolStep(c, s, Transfer, s')
    ensures Ok(c, s')
  {
    hide Backs, BufferOk, EngineInv, Next;
    TransferMoveOk(c, s, s');
    forall x | x in s'.tlb ensures Backed(c, s', x) {
      assert Backed(c, s, x);
      var k: nat :| k < |s.buffers| && !s.Moving(k) && Backs(c, s.buffers[k], x);
      BackedAt(c, s', k, x);
    }
  }

  lemma EndMoveOk(c: Config, s: State, s': State)
    requires c.Valid() && Ok(c, s) && ProtocolStep(c, s, EndMove, s')
    ensures Ok(c, s')
  {
    hide Backs, FramesOk, NonZero, WindowEntries;
    var mv := s.move.value;
    forall e | e in s'.tlb ensures Backed(c, s', e) {
      if e in s.tlb {
        assert Backed(c, s, e);
        var k: nat :| k < |s.buffers| && !s.Moving(k) && Backs(c, s.buffers[k], e);
        BackedAt(c, s', k, e);
      } else {
        WindowEntriesBack(c, s.buffers[mv.index], mv.window, e);
        BackedAt(c, s', mv.index, e);
      }
    }
  }

  lemma EvictOk(c: Config, s: State, x: Entry, s': State)
    requires c.Valid() && Ok(c, s) && ProtocolStep(c, s, Evict(x), s')
    ensures Ok(c, s')
  {
    hide Backs, FramesOk, NonZero, EngineInv;
    forall e | e in s'.tlb ensures Backed(c, s', e) {
      assert Backed(c, s, e);
      var k: nat :| k < |s.buffers| && !s.Moving(k) && Backs(c, s.buffers[k], e);
      BackedAt(c, s', k, e);
    }
  }

  /** Whatever happens to the memories, table and TLBs stay in order. */
  lemma MemoryOk(c: Config, s: State, s': State)
    requires c.Valid() && Ok(c, s) && s' == s.(mem := s'.mem)
    ensures Ok(c, s')
  {
    hide Backs, BufferOk, EngineInv;
    forall e | e in s'.tlb ensures Backed(c, s', e) {
      assert Backed(c, s, e);
      var k: nat :| k < |s.buffers| && !s.Moving(k) && Backs(c, s.buffers[k], e);
      BackedAt(c, s', k, e);
    }
  }

  /** Every step keeps the invariant, whatever frames buffers share. */
  lemma StepOk(c: Config, s: State, ev: Event, s': State)
    requires c.Valid() && Ok(c, s) && ProtocolStep(c, s, ev, s')
    ensures Ok(c, s')
  {
    hide BufferOk, TlbOk, MoveOk, Fresh;
    match ev
    case Create(b) => CreateOk(c, s, b, s');
    case MapWindow(i, w) => MapWindowOk(c, s, i, w, s');
    case BeginMove(i, w) => BeginMoveOk(c, s, i, w, s');
    case FirstMove(i, w) => FirstMoveOk(c, s, i, w, s');
    case MoveInPlace(i, w) => MoveInPlaceOk(c, s, i, w, s');
    case Transfer => TransferOk(c, s, s');
    case EndMove => EndMoveOk(c, s, s');
    case Release(i) => ReleaseOk(c, s, i, s');
    case Evict(e) => EvictOk(c, s, e, s');
    case FpgaWrite(e, page, d) => MemoryOk(c, s, s');
    case CpuWrite(i, k, d) => MemoryOk(c, s, s');
    case CpuOther(a, d) => MemoryOk(c, s, s');
  }

  // ---------------------------------------------------------------------------------------------
  // Runs
  // ---------------------------------------------------------------------------------------------

  /** A page of a Coyote thread's address space. */
  type Page = (nat, nat)

  ghost predicate PageOf(s: State, i: nat, x: Page) {
    i < |s.buffers| && s.buffers[i].ctid == x.0 && s.buffers[i].Contains(x.1)
  }

  /** No two buffers of a thread hold the same page. */
  lemma OneHolder(c: Config, s: State, i: nat, j: nat, x: Page)
    requires c.Valid() && TableOk(c, s.buffers) && PageOf(s, i, x) && PageOf(s, j, x)
    ensures i == j
  {
    hide BufferOk;
  }

  /** An entry leads to the frame that the flag of the page's buffer selects, and that one is not in flight. */
  ghost predicate LeadsRight(c: Config, s: State, e: Entry, page: nat)
    requires c.Valid()
  {
    exists i: nat ::
      && PageOf(s, i, (e.ctid, page)) && !s.Moving(i) && |s.buffers[i].cpages| == |s.buffers[i].hpages|
      && e.strm == s.buffers[i].host
      && Translate(c.g, e, page) == s.buffers[i].Frames()[page - s.buffers[i].vaddr]
  }

  lemma EntryLeadsRight(c: Config, s: State, e: Entry, page: nat)
    requires c.Valid() && Ok(c, s) && e in s.tlb && Covers(c.g, e, page)
    ensures LeadsRight(c, s, e, page)
  {
    hide BufferOk, MoveOk, Covers, Translate;
    assert Backed(c, s, e);
    var i: nat :| i < |s.buffers| && !s.Moving(i) && Backs(c, s.buffers[i], e);
    assert PageOf(s, i, (e.ctid, page));
  }

  /** No entry reaches a page of a buffer in flight. */
  lemma InFlightUnmapped(c: Config, s: State, e: Entry, page: nat)
    requires c.Valid() && Ok(c, s) && s.move.Some? && e in s.tlb && Covers(c.g, e, page)
    ensures !PageOf(s, s.move.value.index, (e.ctid, page))
  {
    hide BufferOk, MoveOk, Covers, Translate;
    assert Backed(c, s, e);
    var i: nat :| i < |s.buffers| && !s.Moving(i) && Backs(c, s.buffers[i], e);
    if PageOf(s, s.move.value.index, (e.ctid, page)) { OneHolder(c, s, i, s.move.value.index, (e.ctid, page)); }
  }

  /** A run: states and the events between them, from a state without buffers and entries on. */
  ghost predicate Run(c: Config, tr: seq<State>, evs: seq<Event>)
    requires c.Valid()
  {
    && |tr| == |evs| + 1
    && tr[0].buffers == [] && tr[0].tlb == {} && tr[0].move.None?
    && forall i :: 0 <= i < |evs| ==> ProtocolStep(c, tr[i], evs[i], tr[i + 1])
  }

  /** The invariant holds in every state of every run. */
  lemma {:induction false} RunOk(c: Config, tr: seq<State>, evs: seq<Event>, n: nat)
    requires c.Valid() && Run(c, tr, evs) && n <= |evs|
    ensures Ok(c, tr[n])
  {
    hide BufferOk, ProtocolStep;
    if n > 0 {
      RunOk(c, tr, evs, n - 1);
      StepOk(c, tr[n - 1], evs[n - 1], tr[n]);
    }
  }

  /**
   On every run, at any time, every entry leads to the page its buffer's flag selects, and none
   reaches a buffer whose migration is in flight.
   */
  lemma RunEntries(c: Config, tr: seq<State>, evs: seq<Event>, n: nat, e: Entry, page: nat)
    requires c.Valid() && Run(c, tr, evs) && n <= |evs| && e in tr[n].tlb && Covers(c.g, e, page)
    ensures LeadsRight(c, tr[n], e, page)
    ensures tr[n].move.Some? ==> !PageOf(tr[n], tr[n].move.value.index, (e.ctid, page))
  {
    hide Ok, LeadsRight, PageOf, Covers;
    RunOk(c, tr, evs, n);
    EntryLeadsRight(c, tr[n], e, page);
    if tr[n].move.Some? { InFlightUnmapped(c, tr[n], e, page); }
  }
}
