/**
 What the protocol means for the contents of memory. Where no two buffers share a frame, the pages
 of a thread are one flat memory with two copies of every page, driven by the events alone: the FPGA
 reads and writes the copy that is current, the processor its own, and migrations copy between them.
 */
module FlatMemory {
  import opened Bits
  import opened Tlb
  import opened TlbMapping
  import opened BufferTable
  import opened Wrappers
  import opened Dma
  import opened VirtualMemory

  // ---------------------------------------------------------------------------------------------
  // Unshared frames
  // ---------------------------------------------------------------------------------------------

  /** No frame of host memory, or of the card, is used twice, within a buffer or across buffers. */
  ghost predicate HostApart(bs: seq<Buffer>) {
    forall i, j, k, l :: 0 <= i < |bs| && 0 <= j < |bs| && 0 <= k < |bs[i].hpages| && 0 <= l < |bs[j].hpages|
      ==> bs[i].hpages[k] == bs[j].hpages[l] ==> i == j && k == l
  }

  ghost predicate CardApart(bs: seq<Buffer>) {
    forall i, j, k, l :: 0 <= i < |bs| && 0 <= j < |bs| && 0 <= k < |bs[i].cpages| && 0 <= l < |bs[j].cpages|
      ==> bs[i].cpages[k] == bs[j].cpages[l] ==> i == j && k == l
  }

  ghost predicate FramesApart(bs: seq<Buffer>) { HostApart(bs) && CardApart(bs) }

  /** The completed pages of a migration in flight are across. */
  ghost predicate Across(s: State) {
    s.move.Some? && s.move.value.index < |s.buffers| && JobOf(s.buffers[s.move.value.index]).Valid() ==>
      var j := JobOf(s.buffers[s.move.value.index]);
      forall k :: 0 <= k < s.move.value.eng.completed && k < |j.hpages| ==>
        Read(Target(j.dir, s.mem), To(j)[k]) == Read(Source(j.dir, s.mem), From(j)[k])
  }

  /** In order, with unshared frames and the migration where it should be. */
  ghost predicate Exact(c: Config, s: State)
    requires c.Valid()
  {
    Ok(c, s) && FramesApart(s.buffers) && Across(s)
  }

  /** Both tables have the same frames at the same places. */
  ghost predicate SameFrames(bs: seq<Buffer>, bs': seq<Buffer>) {
    |bs'| == |bs| && forall i :: 0 <= i < |bs| ==> bs'[i].hpages == bs[i].hpages && bs'[i].cpages == bs[i].cpages
  }

  lemma SameApart(bs: seq<Buffer>, bs': seq<Buffer>)
    requires FramesApart(bs) && SameFrames(bs, bs')
    ensures FramesApart(bs')
  {
  }

  lemma DroppedApart(bs: seq<Buffer>, i: nat)
    requires FramesApart(bs) && i < |bs|
    ensures FramesApart(bs[..i] + bs[i + 1..])
  {
    var bs' := bs[..i] + bs[i + 1..];
    assert forall k :: 0 <= k < |bs'| ==> bs'[k] == bs[if k < i then k else k + 1];
    forall a, b, k, l | 0 <= a < |bs'| && 0 <= b < |bs'| && 0 <= k < |bs'[a].hpages| && 0 <= l < |bs'[b].hpages|
      ensures bs'[a].hpages[k] == bs'[b].hpages[l] ==> a == b && k == l
    {
      var a', b' := if a < i then a else a + 1, if b < i then b else b + 1;
      assert bs[a'].hpages[k] == bs[b'].hpages[l] ==> a' == b' && k == l;
    }
    forall a, b, k, l | 0 <= a < |bs'| && 0 <= b < |bs'| && 0 <= k < |bs'[a].cpages| && 0 <= l < |bs'[b].cpages|
      ensures bs'[a].cpages[k] == bs'[b].cpages[l] ==> a == b && k == l
    {
      var a', b' := if a < i then a else a + 1, if b < i then b else b + 1;
      assert bs[a'].cpages[k] == bs[b'].cpages[l] ==> a' == b' && k == l;
    }
  }

  /** A step leaves frames unshared, unless it creates a buffer. */
  lemma StepApart(c: Config, s: State, ev: Event, s': State)
    requires c.Valid() && FramesApart(s.buffers) && ProtocolStep(c, s, ev, s') && !ev.Create?
    ensures FramesApart(s'.buffers)
  {
    hide FramesApart, BufferOk, Cleared, WindowEntries, Next, NeverMapped;
    if ev.Release? {
      DroppedApart(s.buffers, ev.i);
    } else {
      SameApart(s.buffers, s'.buffers);
    }
  }

  function FramesOn(b: Buffer, side: nat): seq<nat> { if side == HOST_ACCESS then b.hpages else b.cpages }

  /** A write to a page of a buffer that is not in flight, on one of its sides. */
  ghost predicate PageWrite(c: Config, s: State, i: nat, k: nat, side: nat, d: Data, s': State)
    requires c.Valid()
  {
    && i < |s.buffers| && !s.Moving(i) && BufferOk(c, s.buffers[i]) && k < s.buffers[i].Pages()
    && (side == HOST_ACCESS || side == CARD_ACCESS)
    && s' == s.(mem := Stored(s.mem, side, FramesOn(s.buffers[i], side)[k], d))
  }

  /** A write through a TLB entry reaches the page of the buffer that backs the entry. */
  lemma FpgaWriteIsPageWrite(c: Config, s: State, e: Entry, page: nat, d: Data, s': State) returns (i: nat)
    requires c.Valid() && Ok(c, s) && ProtocolStep(c, s, FpgaWrite(e, page, d), s')
    ensures PageOf(s, i, (e.ctid, page))
    ensures PageWrite(c, s, i, page - s.buffers[i].vaddr, s.buffers[i].host, d, s')
  {
    hide FramesOk, NonZero, MoveOk, Covers, Translate;
    assert Backed(c, s, e);
    i :| i < |s.buffers| && !s.Moving(i) && Backs(c, s.buffers[i], e);
  }

  lemma CpuWriteIsPageWrite(c: Config, s: State, i: nat, k: nat, d: Data, s': State)
    requires c.Valid() && Ok(c, s) && ProtocolStep(c, s, CpuWrite(i, k, d), s')
    ensures PageWrite(c, s, i, k, HOST_ACCESS, d, s')
  {
    hide FramesOk, NonZero, MoveOk, TlbOk;
  }

  lemma PageWriteAcross(c: Config, s: State, i: nat, k: nat, side: nat, d: Data, s': State)
    requires c.Valid() && Exact(c, s) && PageWrite(c, s, i, k, side, d, s')
    ensures Across(s')
  {
    hide FramesOk, NonZero, TlbOk, EngineInv;
  }

  /** A write by the processor to memory of no buffer. */
  lemma OtherWriteAcross(c: Config, s: State, a: nat, d: Data, s': State)
    requires c.Valid() && Exact(c, s) && ProtocolStep(c, s, CpuOther(a, d), s')
    ensures Across(s')
  {
    hide FramesOk, FramesApart, NonZero, TlbOk, EngineInv;
  }

  lemma TransferAcross(c: Config, s: State, s': State)
    requires c.Valid() && Exact(c, s) && ProtocolStep(c, s, Transfer, s')
    ensures Across(s')
  {
    hide FramesOk, NonZero, TlbOk, EngineInv;
    var mv := s.move.value;
    var j, e, e' := JobOf(s.buffers[mv.index]), mv.eng, s'.move.value.eng;
    if CardStep(j, e, s.mem, e', s'.mem) { CommandAt(c, s, e.completed); }
  }

  lemma StepAcross(c: Config, s: State, ev: Event, s': State)
    requires c.Valid() && Exact(c, s) && ProtocolStep(c, s, ev, s')
    ensures Across(s')
  {
    hide Ok, FramesApart, Across, PageWrite, ProtocolStep;
    if ev.Transfer? {
      TransferAcross(c, s, s');
    } else if ev.FpgaWrite? {
      var i := FpgaWriteIsPageWrite(c, s, ev.e, ev.page, ev.data, s');
      PageWriteAcross(c, s, i, ev.page - s.buffers[i].vaddr, s.buffers[i].host, ev.data, s');
    } else if ev.CpuWrite? {
      CpuWriteIsPageWrite(c, s, ev.i, ev.k, ev.data, s');
      PageWriteAcross(c, s, ev.i, ev.k, HOST_ACCESS, ev.data, s');
    } else if ev.CpuOther? {
      OtherWriteAcross(c, s, ev.a, ev.data, s');
    } else {
      OthersAcross(c, s, ev, s');
    }
  }

  /** No other event touches memory during a migration. */
  lemma OthersAcross(c: Config, s: State, ev: Event, s': State)
    requires c.Valid() && Across(s) && ProtocolStep(c, s, ev, s')
    requires !ev.Transfer? && !ev.FpgaWrite? && !ev.CpuWrite? && !ev.CpuOther?
    ensures Across(s')
  {
    hide BufferOk, Cleared, WindowEntries, NeverMapped, Fresh, WindowOk;
  }

  /** Every step keeps it all, if a buffer it creates brings frames of its own. */
  lemma StepExact(c: Config, s: State, ev: Event, s': State)
    requires c.Valid() && Exact(c, s) && ProtocolStep(c, s, ev, s') && (ev.Create? ==> FramesApart(s'.buffers))
    ensures Exact(c, s')
  {
    hide Ok, FramesApart, Across, ProtocolStep;
    StepOk(c, s, ev, s');
    StepAcross(c, s, ev, s');
    if !ev.Create? { StepApart(c, s, ev, s'); }
  }

  // ---------------------------------------------------------------------------------------------
  // The flat memory
  // ---------------------------------------------------------------------------------------------

  /** A page: its copies on host and card, and which of them counts for the FPGA. */
  datatype Copies = Copies(host: Data, card: Data, onHost: bool)
  {
    function Current(): Data { if onHost then host else card }

    function Other(): Data { if onHost then card else host }

    /** After a migration to the other side, and after one in place. */
    function Switched(): Copies { Copies(Current(), Current(), !onHost) }

    function Repeated(): Copies { Copies(Other(), Other(), onHost) }

    /** After a request for a side, whichever side the page was on. */
    function Sent(toHost: bool): Copies { if toHost then Copies(card, card, true) else Copies(host, host, false) }

    function WithHost(d: Data): Copies { this.(host := d) }

    function WithCurrent(d: Data): Copies { if onHost then this.(host := d) else this.(card := d) }
  }

  type Flat = map<Page, Copies>

  /** What the FPGA sees of it. */
  ghost function Contents(v: Flat): map<Page, Data> { map x | x in v :: v[x].Current() }

  /** Page `k` of buffer `i`. A migration in flight counts as done: its source is what both copies will be. */
  ghost function PageValue(s: State, i: nat, k: nat): Copies
    requires i < |s.buffers| && k < |s.buffers[i].hpages| && k < |s.buffers[i].cpages|
  {
    var b := s.buffers[i];
    var now := Copies(Read(s.mem.host, b.hpages[k]), Read(s.mem.card, b.cpages[k]), b.host == HOST_ACCESS);
    if s.Moving(i) then now.Repeated() else now
  }

  ghost function Live(s: State): set<Page> {
    set i, p | 0 <= i < |s.buffers| && s.buffers[i].vaddr <= p < s.buffers[i].End() :: (s.buffers[i].ctid, p)
  }

  ghost function View(c: Config, s: State): Flat
    requires c.Valid() && TableOk(c, s.buffers)
  {
    map x | x in Live(s) :: ValueOf(c, s, x)
  }

  ghost function ValueOf(c: Config, s: State, x: Page): Copies
    requires c.Valid() && TableOk(c, s.buffers) && x in Live(s)
  {
    assert exists i: nat :: PageOf(s, i, x) by {
      var i: nat, p: nat :| i < |s.buffers| && s.buffers[i].Contains(p) && x == (s.buffers[i].ctid, p);
      assert PageOf(s, i, x);
    }
    var i: nat :| PageOf(s, i, x);
    PageValue(s, i, x.1 - s.buffers[i].vaddr)
  }

  lemma ViewAt(c: Config, s: State, i: nat, x: Page)
    requires c.Valid() && TableOk(c, s.buffers) && PageOf(s, i, x)
    ensures |s.buffers[i].cpages| == |s.buffers[i].hpages|
    ensures x in View(c, s) && View(c, s)[x] == PageValue(s, i, x.1 - s.buffers[i].vaddr)
  {
    hide FramesOk, NonZero, PageValue;
    assert x in Live(s);
    var j: nat :| PageOf(s, j, x) && ValueOf(c, s, x) == PageValue(s, j, x.1 - s.buffers[j].vaddr);
    OneHolder(c, s, i, j, x);
  }

  lemma ViewKeys(c: Config, s: State, x: Page)
    requires c.Valid() && TableOk(c, s.buffers)
    ensures x in View(c, s) <==> exists i: nat :: PageOf(s, i, x)
  {
    hide BufferOk;
    if i: nat :| PageOf(s, i, x) { assert x in Live(s); }
  }

  /** What the FPGA reads through any entry of the TLBs is the current copy of the flat memory's page. */
  lemma ReadsAreFlat(c: Config, s: State, e: Entry, page: nat)
    requires c.Valid() && Ok(c, s) && e in s.tlb && Covers(c.g, e, page)
    ensures (e.ctid, page) in View(c, s)
    ensures Read(if e.strm == HOST_ACCESS then s.mem.host else s.mem.card, Translate(c.g, e, page))
         == View(c, s)[(e.ctid, page)].Current()
  {
    hide FramesOk, NonZero, MoveOk, Covers, Translate, View;
    assert Backed(c, s, e);
    var i: nat :| i < |s.buffers| && !s.Moving(i) && Backs(c, s.buffers[i], e);
    ViewAt(c, s, i, (e.ctid, page));
  }

  ghost function PagesOf(b: Buffer): (r: set<Page>)
    ensures forall x: Page :: x in r <==> x.0 == b.ctid && b.Contains(x.1)
  {
    set p: nat | b.vaddr <= p < b.End() :: (b.ctid, p)
  }

  /** All pages of a buffer after a migration to the other side, or in place. */
  ghost function Switched(b: Buffer, v: Flat): Flat {
    map x | x in v :: if x in PagesOf(b) then v[x].Switched() else v[x]
  }

  ghost function Repeated(b: Buffer, v: Flat): Flat {
    map x | x in v :: if x in PagesOf(b) then v[x].Repeated() else v[x]
  }

  /**
   What each event does to the flat memory. The memories of host and card are looked at only when a
   buffer is created; migrations take effect when they begin.
   */
  ghost function FlatStep(s: State, ev: Event, v: Flat): Flat {
    match ev
    case Create(b) =>
      if |b.cpages| != |b.hpages| then v
      else v + (map x | x in PagesOf(b) ::
                  Copies(Read(s.mem.host, b.hpages[x.1 - b.vaddr]), Read(s.mem.card, b.cpages[x.1 - b.vaddr]), true))
    case Release(i) =>
      if i < |s.buffers| then v - PagesOf(s.buffers[i]) else v
    case BeginMove(i, _) => if i < |s.buffers| then Switched(s.buffers[i], v) else v
    case FirstMove(i, _) => if i < |s.buffers| then Switched(s.buffers[i], v) else v
    case MoveInPlace(i, _) => if i < |s.buffers| then Repeated(s.buffers[i], v) else v
    case FpgaWrite(e, page, data) =>
      var x := (e.ctid, page);
      if x in v then v[x := v[x].WithCurrent(data)] else v
    case CpuWrite(i, k, data) =>
      if i < |s.buffers| && (s.buffers[i].ctid, s.buffers[i].vaddr + k) in v then
        var x := (s.buffers[i].ctid, s.buffers[i].vaddr + k);
        v[x := v[x].WithHost(data)]
      else v
    case _ => v
  }

  /** A migration to the other side is invisible to the FPGA. */
  lemma SwitchKeeps(b: Buffer, v: Flat)
    ensures Contents(Switched(b, v)) == Contents(v)
  {
  }

  /** Two states with the same buffers at the same places and equal page values look the same. */
  lemma SameView(c: Config, s: State, s': State)
    requires c.Valid() && TableOk(c, s.buffers) && TableOk(c, s'.buffers)
    requires |s'.buffers| == |s.buffers|
    requires forall i: nat :: i < |s.buffers| ==> SamePlace(s.buffers[i], s'.buffers[i])
    requires forall i: nat, k: nat :: i < |s.buffers| && k < s.buffers[i].Pages() ==>
               k < |s.buffers[i].cpages| && k < |s'.buffers[i].cpages| && PageValue(s', i, k) == PageValue(s, i, k)
    ensures View(c, s') == View(c, s)
  {
    hide BufferOk, PageValue, View;
    forall x: Page ensures x in View(c, s) <==> x in View(c, s') {
      ViewKeys(c, s, x);
      ViewKeys(c, s', x);
      if i: nat :| PageOf(s, i, x) { assert PageOf(s', i, x); }
      if i: nat :| PageOf(s', i, x) { assert PageOf(s, i, x); }
    }
    forall x | x in View(c, s) ensures View(c, s')[x] == View(c, s)[x] {
      ViewKeys(c, s, x);
      var i: nat :| PageOf(s, i, x);
      ViewAt(c, s, i, x);
      ViewAt(c, s', i, x);
    }
  }

  predicate SamePlace(a: Buffer, b: Buffer) {
    a.vaddr == b.vaddr && a.ctid == b.ctid && a.Pages() == b.Pages()
  }

  lemma SameMemory(c: Config, s: State, s': State)
    requires c.Valid() && TableOk(c, s.buffers)
    requires s'.buffers == s.buffers && s'.mem == s.mem && s'.move == s.move
    ensures View(c, s') == View(c, s)
  {
    hide FramesOk, NonZero, View;
    SameView(c, s, s');
  }

  /** The two flat memories agree on a page: both lack it, or both hold the same copies. */
  ghost predicate Agree(v: Flat, v': Flat, x: Page) {
    (x in v <==> x in v') && (x in v ==> v[x] == v'[x])
  }

  lemma SameFlat(v: Flat, v': Flat)
    requires forall x: Page :: Agree(v, v', x)
    ensures v == v'
  {
    assert forall x: Page :: x in v ==> Agree(v, v', x);
    assert forall x: Page :: x in v' ==> Agree(v, v', x);
  }

  // ---------------------------------------------------------------------------------------------
  // Creating and releasing
  // ---------------------------------------------------------------------------------------------

  /** A page of an older buffer stays as it is. */
  lemma CreateKeeps(c: Config, s: State, b: Buffer, s': State, i: nat, x: Page)
    requires c.Valid() && Ok(c, s) && Ok(c, s') && ProtocolStep(c, s, Create(b), s') && PageOf(s, i, x)
    ensures x in View(c, s) && x in View(c, s') && View(c, s')[x] == View(c, s)[x]
  {
    hide FramesOk, NonZero, TlbOk, MoveOk, View;
    assert s'.buffers[i + 1] == s.buffers[i];
    ViewAt(c, s, i, x);
    ViewAt(c, s', i + 1, x);
  }

  /** Who holds a page after a creation. */
  lemma CreateHolders(s: State, b: Buffer, s': State, x: Page)
    requires s'.buffers == [b] + s.buffers
    ensures PageOf(s', 0, x) <==> x in PagesOf(b)
    ensures (exists i: nat :: PageOf(s', i, x)) <==> x in PagesOf(b) || exists i: nat :: PageOf(s, i, x)
  {
    forall i: nat | PageOf(s', i, x) && i > 0 ensures PageOf(s, i - 1, x) {
      assert s'.buffers[i] == s.buffers[i - 1];
    }
    forall i: nat | PageOf(s, i, x) ensures PageOf(s', i + 1, x) {
      assert s'.buffers[i + 1] == s.buffers[i];
    }
  }

  /** The new pages show what their frames hold. */
  lemma CreateShows(c: Config, s: State, b: Buffer, s': State, x: Page)
    requires c.Valid() && Ok(c, s') && ProtocolStep(c, s, Create(b), s') && x in PagesOf(b)
    ensures |b.cpages| == |b.hpages| && x in View(c, s')
    ensures View(c, s')[x]
         == Copies(Read(s.mem.host, b.hpages[x.1 - b.vaddr]), Read(s.mem.card, b.cpages[x.1 - b.vaddr]), true)
  {
    hide FramesOk, NonZero, TableOk, TlbOk, MoveOk, View;
    assert s'.buffers[0] == b && PageOf(s', 0, x);
    ViewAt(c, s', 0, x);
  }

  lemma CreateFlatAt(c: Config, s: State, b: Buffer, s': State, x: Page)
    requires c.Valid() && Ok(c, s) && Ok(c, s') && ProtocolStep(c, s, Create(b), s')
    ensures Agree(View(c, s'), FlatStep(s, Create(b), View(c, s)), x)
  {
    hide FramesOk, NonZero, TableOk, TlbOk, MoveOk, View, PageOf;
    ViewKeys(c, s, x);
    ViewKeys(c, s', x);
    CreateHolders(s, b, s', x);
    if x in PagesOf(b) {
      CreateShows(c, s, b, s', x);
    } else if i: nat :| PageOf(s, i, x) {
      CreateKeeps(c, s, b, s', i, x);
    }
  }

  lemma CreateFlat(c: Config, s: State, b: Buffer, s': State)
    requires c.Valid() && Ok(c, s) && Ok(c, s') && ProtocolStep(c, s, Create(b), s')
    ensures View(c, s') == FlatStep(s, Create(b), View(c, s))
  {
    hide View, FlatStep, ProtocolStep, TableOk, TlbOk, MoveOk, Agree;
    var v, v' := FlatStep(s, Create(b), View(c, s)), View(c, s');
    forall x: Page ensures Agree(v', v, x) { CreateFlatAt(c, s, b, s', x); }
    SameFlat(v', v);
  }

  /** A page of another buffer stays as it is. */
  lemma ReleaseKeeps(c: Config, s: State, i: nat, s': State, k: nat, x: Page)
    requires c.Valid() && Ok(c, s) && Ok(c, s') && ProtocolStep(c, s, Release(i), s') && PageOf(s, k, x) && k != i
    ensures x in View(c, s) && x in View(c, s') && View(c, s')[x] == View(c, s)[x]
  {
    hide FramesOk, NonZero, TlbOk, MoveOk, View, Cleared;
    var k' := if k < i then k else k - 1;
    assert s'.buffers[k'] == s.buffers[k];
    ViewAt(c, s, k, x);
    ViewAt(c, s', k', x);
  }

  /** The pages of the released buffer are gone, and no others. */
  lemma ReleaseHolders(c: Config, s: State, i: nat, s': State, x: Page)
    requires c.Valid() && Ok(c, s) && Ok(c, s') && ProtocolStep(c, s, Release(i), s')
    ensures PageOf(s, i, x) || (forall k: nat :: !PageOf(s, k, x)) ==> x !in View(c, s')
    ensures forall k: nat :: PageOf(s, i, x) && PageOf(s, k, x) ==> k == i
  {
    hide BufferOk, TlbOk, MoveOk, View, Cleared;
    ViewKeys(c, s', x);
    forall k: nat | PageOf(s', k, x) ensures PageOf(s, if k < i then k else k + 1, x) {
      assert s'.buffers[k] == s.buffers[if k < i then k else k + 1];
    }
    forall k: nat | PageOf(s, i, x) && PageOf(s, k, x) ensures k == i { OneHolder(c, s, i, k, x); }
  }

  lemma ReleaseFlatAt(c: Config, s: State, i: nat, s': State, x: Page)
    requires c.Valid() && Ok(c, s) && Ok(c, s') && ProtocolStep(c, s, Release(i), s')
    ensures Agree(View(c, s'), FlatStep(s, Release(i), View(c, s)), x)
  {
    hide BufferOk, TlbOk, MoveOk, View, Cleared;
    ViewKeys(c, s, x);
    ReleaseHolders(c, s, i, s', x);
    if k: nat :| PageOf(s, k, x) && k != i { ReleaseKeeps(c, s, i, s', k, x); }
  }

  lemma ReleaseFlat(c: Config, s: State, i: nat, s': State)
    requires c.Valid() && Ok(c, s) && Ok(c, s') && ProtocolStep(c, s, Release(i), s')
    ensures View(c, s') == FlatStep(s, Release(i), View(c, s))
  {
    hide View, FlatStep, ProtocolStep, TableOk, TlbOk, MoveOk, Agree;
    var v, v' := FlatStep(s, Release(i), View(c, s)), View(c, s');
    forall x: Page ensures Agree(v', v, x) { ReleaseFlatAt(c, s, i, s', x); }
    SameFlat(v', v);
  }

  // ---------------------------------------------------------------------------------------------
  // Writing
  // ---------------------------------------------------------------------------------------------

  /** One copy of a page replaced. */
  function Replaced(p: Copies, side: nat, d: Data): Copies {
    if side == HOST_ACCESS then p.(host := d) else p.(card := d)
  }

  /** No other page has the frame that a page has on a side. */
  ghost predicate OwnFrame(s: State, i: nat, k: nat, side: nat)
    requires i < |s.buffers| && k < |FramesOn(s.buffers[i], side)|
  {
    forall j, l :: 0 <= j < |s.buffers| && 0 <= l < |FramesOn(s.buffers[j], side)| ==>
      FramesOn(s.buffers[j], side)[l] == FramesOn(s.buffers[i], side)[k] ==> j == i && l == k
  }

  /** A write to such a frame changes that copy of that page and nothing else. */
  lemma WrittenValue(c: Config, s: State, i: nat, k: nat, side: nat, d: Data, s': State, j: nat, l: nat)
    requires c.Valid() && PageWrite(c, s, i, k, side, d, s') && OwnFrame(s, i, k, side)
    requires j < |s.buffers| && l < s.buffers[j].Pages() && BufferOk(c, s.buffers[j])
    ensures PageValue(s', j, l)
         == if i == j && k == l then Replaced(PageValue(s, j, l), side, d) else PageValue(s, j, l)
  {
    hide FramesOk, NonZero;
    var fs := FramesOn(s.buffers[j], side);
    assert fs[l] == FramesOn(s.buffers[i], side)[k] ==> j == i && l == k;
  }

  lemma PageWriteAt(c: Config, s: State, i: nat, k: nat, side: nat, d: Data, s': State, j: nat, x: Page)
    requires c.Valid() && TableOk(c, s.buffers) && PageWrite(c, s, i, k, side, d, s') && OwnFrame(s, i, k, side)
    requires PageOf(s, j, x)
    ensures x in View(c, s) && x in View(c, s')
    ensures View(c, s')[x] == if x == (s.buffers[i].ctid, s.buffers[i].vaddr + k) then Replaced(View(c, s)[x], side, d)
                              else View(c, s)[x]
  {
    hide FramesOk, NonZero, View, PageValue, OwnFrame;
    assert PageOf(s', j, x);
    ViewAt(c, s, j, x);
    ViewAt(c, s', j, x);
    WrittenValue(c, s, i, k, side, d, s', j, x.1 - s.buffers[j].vaddr);
    if x == (s.buffers[i].ctid, s.buffers[i].vaddr + k) { OneHolder(c, s, i, j, x); }
  }

  /** What the flat memory makes of a page write. */
  ghost predicate WrittenOnce(c: Config, s: State, i: nat, k: nat, side: nat, d: Data, s': State)
    requires c.Valid() && TableOk(c, s.buffers) && TableOk(c, s'.buffers) && i < |s.buffers|
  {
    var x := (s.buffers[i].ctid, s.buffers[i].vaddr + k);
    x in View(c, s) && View(c, s') == View(c, s)[x := Replaced(View(c, s)[x], side, d)]
  }

  lemma PageWriteFlat(c: Config, s: State, i: nat, k: nat, side: nat, d: Data, s': State)
    requires c.Valid() && TableOk(c, s.buffers) && PageWrite(c, s, i, k, side, d, s') && OwnFrame(s, i, k, side)
    ensures WrittenOnce(c, s, i, k, side, d, s')
  {
    hide BufferOk, View, Replaced, OwnFrame;
    var y := (s.buffers[i].ctid, s.buffers[i].vaddr + k);
    assert PageOf(s, i, y);
    PageWriteAt(c, s, i, k, side, d, s', i, y);
    var v, v' := View(c, s)[y := Replaced(View(c, s)[y], side, d)], View(c, s');
    forall x: Page ensures Agree(v', v, x) {
      ViewKeys(c, s, x);
      ViewKeys(c, s', x);
      assert forall j: nat :: PageOf(s', j, x) <==> PageOf(s, j, x);
      if j: nat :| PageOf(s, j, x) { PageWriteAt(c, s, i, k, side, d, s', j, x); }
    }
    SameFlat(v', v);
  }

  /** A write through a shared frame shows in the other page as well. */
  lemma SharedShows(c: Config, s: State, i: nat, k: nat, side: nat, d: Data, s': State, j: nat, l: nat)
    requires c.Valid() && TableOk(c, s.buffers) && s.move.None? && PageWrite(c, s, i, k, side, d, s')
    requires j < |s.buffers| && l < s.buffers[j].Pages() && (j != i || l != k) && BufferOk(c, s.buffers[j])
    requires FramesOn(s.buffers[j], side)[l] == FramesOn(s.buffers[i], side)[k]
    requires WrittenOnce(c, s, i, k, side, d, s')
    ensures d == Read(if side == HOST_ACCESS then s.mem.host else s.mem.card, FramesOn(s.buffers[i], side)[k])
  {
    hide FramesOk, NonZero, View;
    var x: Page := (s.buffers[i].ctid, s.buffers[i].vaddr + k);
    var y: Page := (s.buffers[j].ctid, s.buffers[j].vaddr + l);
    assert PageOf(s, j, y) && PageOf(s', j, y) && PageOf(s, i, x);
    if x == y { OneHolder(c, s, i, j, x); }
    ViewAt(c, s, j, y);
    ViewAt(c, s', j, y);
  }

  /** Writing a page changes that page alone, whatever is written, exactly when it does not share its frame. */
  lemma WriteFlatExact(c: Config, s: State, i: nat, k: nat, side: nat)
    requires c.Valid() && Ok(c, s) && s.move.None? && i < |s.buffers| && k < s.buffers[i].Pages()
    requires side == HOST_ACCESS || side == CARD_ACCESS
    ensures |s.buffers[i].cpages| == |s.buffers[i].hpages|
    ensures (forall d, s' :: PageWrite(c, s, i, k, side, d, s') ==> WrittenOnce(c, s, i, k, side, d, s'))
            <==> OwnFrame(s, i, k, side)
  {
    hide FramesOk, NonZero, TlbOk, MoveOk, WrittenOnce;
    if OwnFrame(s, i, k, side) {
      forall d, s' | PageWrite(c, s, i, k, side, d, s') ensures WrittenOnce(c, s, i, k, side, d, s') {
        PageWriteFlat(c, s, i, k, side, d, s');
      }
    } else {
      var j, l :| 0 <= j < |s.buffers| && 0 <= l < |FramesOn(s.buffers[j], side)| && (j != i || l != k)
                  && FramesOn(s.buffers[j], side)[l] == FramesOn(s.buffers[i], side)[k];
      var a := FramesOn(s.buffers[i], side)[k];
      var d := Read(if side == HOST_ACCESS then s.mem.host else s.mem.card, a) + [0];
      var s' := s.(mem := Stored(s.mem, side, a, d));
      assert PageWrite(c, s, i, k, side, d, s');
      if WrittenOnce(c, s, i, k, side, d, s') { SharedShows(c, s, i, k, side, d, s', j, l); }
    }
  }

  lemma ApartOwn(s: State, i: nat, k: nat, side: nat)
    requires FramesApart(s.buffers) && i < |s.buffers| && k < |FramesOn(s.buffers[i], side)|
    ensures OwnFrame(s, i, k, side)
  {
  }

  lemma FpgaWriteFlat(c: Config, s: State, e: Entry, page: nat, d: Data, s': State)
    requires c.Valid() && Exact(c, s) && Ok(c, s') && ProtocolStep(c, s, FpgaWrite(e, page, d), s')
    ensures View(c, s') == FlatStep(s, FpgaWrite(e, page, d), View(c, s))
  {
    hide FramesOk, FramesApart, NonZero, TlbOk, MoveOk, Across, View, ProtocolStep, OwnFrame;
    var i := FpgaWriteIsPageWrite(c, s, e, page, d, s');
    ApartOwn(s, i, page - s.buffers[i].vaddr, s.buffers[i].host);
    PageWriteFlat(c, s, i, page - s.buffers[i].vaddr, s.buffers[i].host, d, s');
    ViewAt(c, s, i, (e.ctid, page));
  }

  lemma CpuWriteFlat(c: Config, s: State, i: nat, k: nat, d: Data, s': State)
    requires c.Valid() && Exact(c, s) && Ok(c, s') && ProtocolStep(c, s, CpuWrite(i, k, d), s')
    ensures View(c, s') == FlatStep(s, CpuWrite(i, k, d), View(c, s))
  {
    hide BufferOk, FramesApart, TlbOk, MoveOk, Across, View, ProtocolStep, OwnFrame;
    CpuWriteIsPageWrite(c, s, i, k, d, s');
    ApartOwn(s, i, k, HOST_ACCESS);
    PageWriteFlat(c, s, i, k, HOST_ACCESS, d, s');
  }

  lemma CpuOtherFlat(c: Config, s: State, a: nat, d: Data, s': State)
    requires c.Valid() && Ok(c, s) && Ok(c, s') && ProtocolStep(c, s, CpuOther(a, d), s')
    ensures View(c, s') == View(c, s)
  {
    hide FramesOk, NonZero, TlbOk, MoveOk, View;
    SameView(c, s, s');
  }

  // ---------------------------------------------------------------------------------------------
  // Migrating
  // ---------------------------------------------------------------------------------------------

  /** The copies of a page when a migration of its buffer begins. */
  ghost function Begun(ev: Event, p: Copies): Copies { if ev.MoveInPlace? then p.Repeated() else p.Switched() }

  ghost predicate Begins(ev: Event) { ev.BeginMove? || ev.FirstMove? || ev.MoveInPlace? }

  lemma BeginValue(c: Config, s: State, ev: Event, s': State, j: nat, x: Page)
    requires c.Valid() && Ok(c, s) && Ok(c, s') && Begins(ev) && ProtocolStep(c, s, ev, s') && PageOf(s, j, x)
    ensures x in View(c, s) && x in View(c, s')
    ensures View(c, s')[x] == if ev.i == j then Begun(ev, View(c, s)[x]) else View(c, s)[x]
  {
    hide FramesOk, NonZero, TlbOk, MoveOk, View, Cleared, NeverMapped;
    assert PageOf(s', j, x);
    ViewAt(c, s, j, x);
    ViewAt(c, s', j, x);
  }

  lemma BeginFlatAt(c: Config, s: State, ev: Event, s': State, x: Page)
    requires c.Valid() && Ok(c, s) && Ok(c, s') && Begins(ev) && ProtocolStep(c, s, ev, s')
    ensures Agree(View(c, s'), FlatStep(s, ev, View(c, s)), x)
  {
    hide BufferOk, TlbOk, MoveOk, View, Cleared, NeverMapped;
    ViewKeys(c, s, x);
    ViewKeys(c, s', x);
    assert forall j: nat :: PageOf(s', j, x) <==> PageOf(s, j, x);
    assert x in PagesOf(s.buffers[ev.i]) <==> PageOf(s, ev.i, x);
    if j: nat :| PageOf(s, j, x) {
      BeginValue(c, s, ev, s', j, x);
      if PageOf(s, ev.i, x) { OneHolder(c, s, ev.i, j, x); }
    }
  }

  /** A migration shows its effect when it begins. */
  lemma BeginFlat(c: Config, s: State, ev: Event, s': State)
    requires c.Valid() && Ok(c, s) && Ok(c, s') && Begins(ev) && ProtocolStep(c, s, ev, s')
    ensures View(c, s') == FlatStep(s, ev, View(c, s))
  {
    hide View, FlatStep, ProtocolStep, TableOk, TlbOk, MoveOk, Agree;
    var v, v' := FlatStep(s, ev, View(c, s)), View(c, s');
    forall x: Page ensures Agree(v', v, x) { BeginFlatAt(c, s, ev, s', x); }
    SameFlat(v', v);
  }

  /** The transfer leaves the source side alone and touches only frames of the buffer in flight. */
  lemma TransferFlat(c: Config, s: State, s': State)
    requires c.Valid() && Exact(c, s) && Ok(c, s') && ProtocolStep(c, s, Transfer, s')
    ensures View(c, s') == View(c, s)
  {
    hide FramesOk, FramesApart, NonZero, TlbOk, Across, View, PageValue;
    forall i: nat, k: nat | i < |s.buffers| && k < s.buffers[i].Pages()
      ensures k < |s.buffers[i].cpages| && PageValue(s', i, k) == PageValue(s, i, k)
    {
      TransferValue(c, s, s', i, k);
    }
    SameView(c, s, s');
  }

  lemma TransferValue(c: Config, s: State, s': State, i: nat, k: nat)
    requires c.Valid() && Exact(c, s) && ProtocolStep(c, s, Transfer, s') && i < |s.buffers| && k < s.buffers[i].Pages()
    ensures k < |s.buffers[i].cpages| && PageValue(s', i, k) == PageValue(s, i, k)
  {
    hide FramesOk, NonZero, TlbOk, EngineInv, Across;
    var mv := s.move.value;
    var j, e, e' := JobOf(s.buffers[mv.index]), mv.eng, s'.move.value.eng;
    if CardStep(j, e, s.mem, e', s'.mem) { CommandAt(c, s, e.completed); }
  }

  /** When the interrupt has come every page is across, so both copies are what the view says. */
  lemma EndMoveFlat(c: Config, s: State, s': State)
    requires c.Valid() && Exact(c, s) && Ok(c, s') && ProtocolStep(c, s, EndMove, s')
    ensures View(c, s') == View(c, s)
  {
    hide FramesOk, FramesApart, NonZero, TlbOk, Across, View, WindowEntries, PageValue;
    forall i: nat, k: nat | i < |s.buffers| && k < s.buffers[i].Pages()
      ensures k < |s.buffers[i].cpages| && PageValue(s', i, k) == PageValue(s, i, k)
    {
      EndMoveValue(c, s, s', i, k);
    }
    SameView(c, s, s');
  }

  lemma EndMoveValue(c: Config, s: State, s': State, i: nat, k: nat)
    requires c.Valid() && Exact(c, s) && ProtocolStep(c, s, EndMove, s') && i < |s.buffers| && k < s.buffers[i].Pages()
    ensures k < |s.buffers[i].cpages| && PageValue(s', i, k) == PageValue(s, i, k)
  {
    hide FramesOk, FramesApart, TlbOk, WindowEntries;
    var mv := s.move.value;
    var j := JobOf(s.buffers[mv.index]);
    InterruptMeansDone(j, mv.eng);
    OnePerPage(j, 0);
    if i == mv.index {
      assert Read(Target(j.dir, s.mem), To(j)[k]) == Read(Source(j.dir, s.mem), From(j)[k]);
    }
  }

  // ---------------------------------------------------------------------------------------------
  // Steps and runs
  // ---------------------------------------------------------------------------------------------

  /** Every event does to the pages what the flat memory says of it. */
  lemma StepFlat(c: Config, s: State, ev: Event, s': State)
    requires c.Valid() && Exact(c, s) && ProtocolStep(c, s, ev, s') && (ev.Create? ==> FramesApart(s'.buffers))
    ensures Exact(c, s') && View(c, s') == FlatStep(s, ev, View(c, s))
  {
    StepExact(c, s, ev, s');
    hide BufferOk, FramesApart, TlbOk, MoveOk, Across, Fresh, View, Cleared, NeverMapped;
    if ev.Create? {
      CreateFlat(c, s, ev.b, s');
    } else if ev.Release? {
      ReleaseFlat(c, s, ev.i, s');
    } else if Begins(ev) {
      BeginFlat(c, s, ev, s');
    } else if ev.FpgaWrite? {
      FpgaWriteFlat(c, s, ev.e, ev.page, ev.data, s');
    } else if ev.CpuWrite? {
      CpuWriteFlat(c, s, ev.i, ev.k, ev.data, s');
    } else {
      QuietFlat(c, s, ev, s');
    }
  }

  /** The remaining events are invisible. */
  lemma QuietFlat(c: Config, s: State, ev: Event, s': State)
    requires c.Valid() && Exact(c, s) && Ok(c, s') && ProtocolStep(c, s, ev, s')
    requires ev.MapWindow? || ev.Transfer? || ev.EndMove? || ev.Evict? || ev.CpuOther?
    ensures View(c, s') == View(c, s)
  {
    hide BufferOk, FramesApart, TlbOk, MoveOk, Across, View, WindowEntries;
    match ev
    case MapWindow(i, w) => SameMemory(c, s, s');
    case Transfer => TransferFlat(c, s, s');
    case EndMove => EndMoveFlat(c, s, s');
    case Evict(e) => SameMemory(c, s, s');
    case CpuOther(a, d) => CpuOtherFlat(c, s, a, d, s');
  }

  lemma EmptyExact(c: Config, s: State)
    requires c.Valid() && s.buffers == [] && s.tlb == {} && s.move.None?
    ensures Exact(c, s) && View(c, s) == map[]
  {
    hide BufferOk;
    assert Live(s) == {};
  }

  /** The flat memory's own history. */
  ghost function FlatRun(tr: seq<State>, evs: seq<Event>, n: nat): Flat
    requires n <= |evs| < |tr|
  {
    if n == 0 then map[] else FlatStep(tr[n - 1], evs[n - 1], FlatRun(tr, evs, n - 1))
  }

  /** Every buffer created in the first `n` steps of a run brings frames of its own. */
  ghost predicate Unshared(tr: seq<State>, evs: seq<Event>, n: nat)
    requires n <= |evs| < |tr|
  {
    forall i :: 0 <= i < n && evs[i].Create? ==> FramesApart(tr[i + 1].buffers)
  }

  /** Up to the first shared frame, on every run, the pages are those of the flat memory. */
  lemma {:induction false} RunRefinesFlat(c: Config, tr: seq<State>, evs: seq<Event>, n: nat)
    requires c.Valid() && VirtualMemory.Run(c, tr, evs) && n <= |evs| && Unshared(tr, evs, n)
    ensures Exact(c, tr[n]) && View(c, tr[n]) == FlatRun(tr, evs, n)
  {
    hide ProtocolStep, FlatStep, FramesApart, Across, BufferOk, View;
    if n == 0 {
      EmptyExact(c, tr[0]);
    } else {
      RunRefinesFlat(c, tr, evs, n - 1);
      StepFlat(c, tr[n - 1], evs[n - 1], tr[n]);
    }
  }

  /** What the FPGA reads on such a run, at any time, through any entry is the current copy of the page. */
  lemma RunReadsFlat(c: Config, tr: seq<State>, evs: seq<Event>, n: nat, e: Entry, page: nat)
    requires c.Valid() && VirtualMemory.Run(c, tr, evs) && n <= |evs| && Unshared(tr, evs, n)
    requires e in tr[n].tlb && Covers(c.g, e, page)
    ensures (e.ctid, page) in FlatRun(tr, evs, n)
    ensures Read(if e.strm == HOST_ACCESS then tr[n].mem.host else tr[n].mem.card, Translate(c.g, e, page))
         == FlatRun(tr, evs, n)[(e.ctid, page)].Current()
  {
    hide FlatRun, FramesApart, Across, Covers, Translate, View, Ok, Unshared;
    RunRefinesFlat(c, tr, evs, n);
    ReadsAreFlat(c, tr[n], e, page);
  }

  // ---------------------------------------------------------------------------------------------
  // Three runs
  // ---------------------------------------------------------------------------------------------

  const ExampleConfig := Config(Geometry(TlbMeta(false, 12, 10, 26, 32), TlbMeta(true, 21, 6, 21, 23)), [0])

  /** A buffer of one page; all of them use the same frames. */
  function ExamplePage(vaddr: nat): Buffer { Buffer(vaddr, [PAGE_SIZE], [PAGE_SIZE], false, 0, HOST_ACCESS) }

  lemma ExampleBuffer(b: Buffer)
    requires (b == ExamplePage(b.vaddr) || b == Flipped(ExamplePage(b.vaddr))) && b.vaddr <= 2
    ensures ExampleConfig.Valid() && BufferOk(ExampleConfig, b)
  {
    ExampleValid();
    ExampleFrames(ExampleConfig.g, b.vaddr);
    hide Low, Shr, FramesOk;
    Pow2Mono(2, TLB_VADDR_RANGE - PAGE_SHIFT);
  }

  lemma ExampleValid()
    ensures ExampleConfig.Valid()
  {
    hide Pow2;
  }

  lemma ExampleFrames(g: Geometry, vaddr: nat)
    requires g.Valid()
    ensures FramesOk(g, [PAGE_SIZE], vaddr, false)
  {
    assert Pow2(12) == PAGE_SIZE;
    LowMod(PAGE_SIZE, 12);
    Pow2Mono(13, TLB_PADDR_RANGE);
    assert Pow2(13) == 2 * Pow2(12);
  }

  lemma ExampleEntry(b: Buffer, w: Window) returns (e: Entry)
    requires ExampleConfig.Valid() && BufferOk(ExampleConfig, b) && WindowOk(ExampleConfig, b, w)
    requires w == Window(b.vaddr, 1) && |b.hpages| == 1 && !b.huge
    ensures e in WindowEntries(ExampleConfig, b, w) && Covers(ExampleConfig.g, e, b.vaddr)
  {
    hide Low, Shr, Pow2, FramesOk, CanCoalesce;
    var c := ExampleConfig;
    var g, fs, o := c.g, WindowFrames(b, w), Owner(b.host, b.ctid, c.hpid[b.ctid]);
    var s := Step(0, CanCoalesce(g, fs, w.vaddr, 0));
    WalkStep(g, fs, w.vaddr, false, 0, s.huge, []);
    assert Walk(g, fs, w.vaddr, false, 0)[0] == s;
    assert MapSteps(g, fs, w.vaddr, false)[0] == s;
    hide Walk, MapSteps;
    e := StepEntry(g, fs, w.vaddr, s, o);
  }

  lemma OnePage(b: Buffer)
    requires b.ctid == 0 && b.Pages() == 1
    ensures PagesOf(b) == {(0, b.vaddr)}
  {
    assert forall x: Page :: x in PagesOf(b) <==> x == (0, b.vaddr);
  }

  lemma FlatRunStep(tr: seq<State>, evs: seq<Event>, n: nat)
    requires n < |evs| < |tr|
    ensures FlatRun(tr, evs, 0) == map[]
    ensures FlatRun(tr, evs, n + 1) == FlatStep(tr[n], evs[n], FlatRun(tr, evs, n))
  {
  }

  /** The smallest run with something to read: one buffer of one page, created and mapped. */
  lemma ExampleRun(d: Data) returns (tr: seq<State>, evs: seq<Event>, e: Entry)
    ensures ExampleConfig.Valid() && VirtualMemory.Run(ExampleConfig, tr, evs) && |evs| == 2 && Unshared(tr, evs, 2)
    ensures e in tr[2].tlb && Covers(ExampleConfig.g, e, 1)
    ensures FlatRun(tr, evs, 2) == map[(0, 1) := Copies(d, [], true)]
  {
    hide Low, Shr, Pow2, FramesOk, BufferOk, WindowEntries, Covers, PageOf, FlatRun, FlatStep;
    var c, b, w := ExampleConfig, ExamplePage(1), Window(1, 1);
    ExampleBuffer(b);
    var s0 := State([], {}, Memories(map[PAGE_SIZE := d], map[]), None);
    var s1 := s0.(buffers := [b] + s0.buffers);
    var s2 := s1.(tlb := s1.tlb + WindowEntries(c, b, w));
    tr, evs := [s0, s1, s2], [Create(b), MapWindow(0, w)];
    e := ExampleEntry(b, w);
    assert [b] + s0.buffers == [b];
    assert ProtocolStep(c, s0, evs[0], s1) && ProtocolStep(c, s1, evs[1], s2);
    CreatedFlat(tr, evs, b, d);
    FlatRunStep(tr, evs, 1);
    QuietStep(s1, evs[1], FlatRun(tr, evs, 1));
  }

  lemma QuietStep(s: State, ev: Event, v: Flat)
    requires ev.MapWindow? || ev.Transfer? || ev.EndMove?
    ensures FlatStep(s, ev, v) == v
  {
  }

  lemma CreatedFlat(tr: seq<State>, evs: seq<Event>, b: Buffer, d: Data)
    requires 0 < |evs| < |tr| && evs[0] == Create(b) && b == ExamplePage(b.vaddr)
    requires tr[0].mem == Memories(map[PAGE_SIZE := d], map[])
    ensures FlatRun(tr, evs, 1) == map[(0, b.vaddr) := Copies(d, [], true)]
  {
    hide FlatRun;
    OnePage(b);
    FlatRunStep(tr, evs, 0);
  }

  /**
   A run that loses a write: the buffer goes to the card, the FPGA writes there, and a second
   offload copies the host's old page over it.
   */
  lemma LostWriteExample(d: Data, d': Data) returns (tr: seq<State>, evs: seq<Event>, e: Entry)
    ensures ExampleConfig.Valid() && VirtualMemory.Run(ExampleConfig, tr, evs) && |evs| == 7 && Unshared(tr, evs, 7)
    ensures evs[5] == FpgaWrite(e, 1, d') && evs[6].MoveInPlace?
    ensures FlatRun(tr, evs, 6) == map[(0, 1) := Copies(d, d', false)]
    ensures FlatRun(tr, evs, 7) == map[(0, 1) := Copies(d, d, false)]
  {
    hide Low, Shr, Pow2, BufferOk, Covers, ProtocolStep, FlatRun;
    var b, w := ExamplePage(1), Window(1, 1);
    var moved: seq<State>;
    moved, e := ExampleMoved(b, w, d);
    var s6, s7 := ExampleLost(moved[5], b, w, e, d');
    tr := [moved[0], moved[1], moved[2], moved[3], moved[4], moved[5], s6, s7];
    evs := [Create(b), BeginMove(0, w), Transfer, Transfer, EndMove, FpgaWrite(e, 1, d'), MoveInPlace(0, w)];
    ExampleBuffer(b);
    assert VirtualMemory.Run(ExampleConfig, tr, evs);
    LostWriteFlat(tr, evs, b, e, d, d');
  }

  /** The FPGA writes the page on the card, then the buffer is offloaded again. */
  lemma ExampleLost(s: State, b: Buffer, w: Window, e: Entry, d': Data) returns (s1: State, s2: State)
    requires ExampleConfig.Valid() && w == Window(1, 1)
    requires s.move.None? && b == ExamplePage(1) && s.buffers == [Flipped(b)]
    requires e in s.tlb && e.strm == CARD_ACCESS && Covers(ExampleConfig.g, e, 1)
    ensures ProtocolStep(ExampleConfig, s, FpgaWrite(e, 1, d'), s1)
    ensures ProtocolStep(ExampleConfig, s1, MoveInPlace(0, w), s2)
    ensures s1.buffers == s.buffers
  {
    hide Low, Shr, Pow2, BufferOk, Covers, Translate, Cleared;
    ExampleBuffer(Flipped(b));
    s1 := s.(mem := Stored(s.mem, e.strm, Translate(ExampleConfig.g, e, 1), d'));
    s2 := s1.(tlb := Cleared(ExampleConfig, s1.tlb, Flipped(b)), move := Some(Move(0, w, Start)));
  }

  /** One buffer of one page is created and brought to the card. */
  lemma ExampleMoved(b: Buffer, w: Window, d: Data) returns (tr: seq<State>, e: Entry)
    requires w == Window(1, 1) && b == ExamplePage(1)
    ensures ExampleConfig.Valid() && |tr| == 6 && tr[0] == State([], {}, Memories(map[PAGE_SIZE := d], map[]), None)
    ensures ProtocolStep(ExampleConfig, tr[0], Create(b), tr[1])
    ensures ProtocolStep(ExampleConfig, tr[1], BeginMove(0, w), tr[2])
    ensures ProtocolStep(ExampleConfig, tr[2], Transfer, tr[3]) && ProtocolStep(ExampleConfig, tr[3], Transfer, tr[4])
    ensures ProtocolStep(ExampleConfig, tr[4], EndMove, tr[5])
    ensures tr[1].buffers == [b] && tr[5].buffers == [Flipped(b)] && tr[5].move.None?
    ensures e in tr[5].tlb && e.ctid == 0 && e.strm == CARD_ACCESS && Covers(ExampleConfig.g, e, 1)
  {
    hide Low, Shr, Pow2, FramesOk, BufferOk, WindowEntries, Covers, Translate, Cleared, Next;
    var c := ExampleConfig;
    ExampleBuffer(b);
    ExampleBuffer(Flipped(b));
    var s0 := State([], {}, Memories(map[PAGE_SIZE := d], map[]), None);
    var s1 := s0.(buffers := [b] + s0.buffers);
    var s2 := s1.(buffers := s1.buffers[0 := Flipped(b)], tlb := Cleared(c, {}, b), move := Some(Move(0, w, Start)));
    assert [b] + s0.buffers == [b] && s1.buffers[0 := Flipped(b)] == [Flipped(b)];
    assert ProtocolStep(c, s0, Create(b), s1) && ProtocolStep(c, s1, BeginMove(0, w), s2);
    var s3, s4 := ExampleTransfers(s2, b, w);
    var s5 := s4.(tlb := s4.tlb + WindowEntries(c, Flipped(b), w), move := None);
    assert ProtocolStep(c, s4, EndMove, s5);
    e := ExampleEntry(Flipped(b), w);
    WindowEntriesBack(c, Flipped(b), w, e);
    tr := [s0, s1, s2, s3, s4, s5];
  }

  /** Issue of the one command, then its completion with the interrupt. */
  lemma ExampleTransfers(s: State, b: Buffer, w: Window) returns (s1: State, s2: State)
    requires ExampleConfig.Valid() && b == ExamplePage(1)
    requires s.buffers == [Flipped(b)] && s.move == Some(Move(0, w, Start))
    ensures ProtocolStep(ExampleConfig, s, Transfer, s1) && ProtocolStep(ExampleConfig, s1, Transfer, s2)
    ensures s2 == s.(mem := s2.mem, move := s2.move)
    ensures s2.move.Some? && s2.move.value.index == 0 && s2.move.value.window == w && s2.move.value.eng.irq
  {
    var j := JobOf(Flipped(b));
    var e1 := Engine(1, 1, [j.At(0)], 0, false);
    var e2 := Engine(1, 1, [j.At(0)], 1, true);
    assert IssueStep(j, Start, e1);
    s1 := s.(move := Some(Move(0, w, e1)));
    var m := Copied(j.dir, s.mem, j.At(0));
    assert CardStep(j, e1, s.mem, e2, m);
    s2 := s1.(mem := m, move := Some(Move(0, w, e2)));
  }

  /** The flat memory of the run follows from its events and the page that was there at the creation. */
  lemma LostWriteFlat(tr: seq<State>, evs: seq<Event>, b: Buffer, e: Entry, d: Data, d': Data)
    requires |tr| == 8 && |evs| == 7 && b == ExamplePage(1) && evs[0] == Create(b)
    requires evs[1].BeginMove? && evs[1].i == 0 && tr[1].buffers == [b]
    requires evs[2].Transfer? && evs[3].Transfer? && evs[4].EndMove?
    requires evs[5] == FpgaWrite(e, 1, d') && e.ctid == 0
    requires evs[6].MoveInPlace? && evs[6].i == 0 && tr[6].buffers == [Flipped(b)]
    requires tr[0].mem == Memories(map[PAGE_SIZE := d], map[])
    ensures FlatRun(tr, evs, 6) == map[(0, 1) := Copies(d, d', false)]
    ensures FlatRun(tr, evs, 7) == map[(0, 1) := Copies(d, d, false)]
  {
    hide FlatRun, FlatStep;
    OnePage(b);
    OnePage(Flipped(b));
    CreatedFlat(tr, evs, b, d);
    FlatRunStep(tr, evs, 1);
    MovedFlat(tr[1], evs[1], b, Copies(d, [], true));
    assert FlatRun(tr, evs, 2) == map[(0, 1) := Copies(d, d, false)];
    forall n | 2 <= n < 5 ensures FlatRun(tr, evs, n + 1) == FlatRun(tr, evs, n) {
      FlatRunStep(tr, evs, n);
      QuietStep(tr[n], evs[n], FlatRun(tr, evs, n));
    }
    assert FlatRun(tr, evs, 5) == FlatRun(tr, evs, 4) == FlatRun(tr, evs, 3) == FlatRun(tr, evs, 2);
    FlatRunStep(tr, evs, 5);
    WrittenFlat(tr[5], e, d', Copies(d, d, false));
    FlatRunStep(tr, evs, 6);
    MovedFlat(tr[6], evs[6], Flipped(b), Copies(d, d', false));
  }

  lemma WrittenFlat(s: State, e: Entry, d: Data, p: Copies)
    requires e.ctid == 0
    ensures FlatStep(s, FpgaWrite(e, 1, d), map[(0, 1) := p]) == map[(0, 1) := p.WithCurrent(d)]
  {
  }

  lemma MovedFlat(s: State, ev: Event, b: Buffer, p: Copies)
    requires (ev.BeginMove? || ev.MoveInPlace?) && ev.i == 0 && s.buffers == [b] && PagesOf(b) == {(0, 1)}
    ensures FlatStep(s, ev, map[(0, 1) := p]) == map[(0, 1) := Begun(ev, p)]
  {
  }

  /** Where two buffers share a frame, the pages need not be those of the flat memory. */
  lemma SharedFrameExample(d: Data, d': Data) returns (tr: seq<State>, evs: seq<Event>)
    requires d != d'
    ensures ExampleConfig.Valid() && VirtualMemory.Run(ExampleConfig, tr, evs)
    ensures |evs| == 3 && evs[2] == CpuWrite(0, 0, d')
    ensures TableOk(ExampleConfig, tr[3].buffers) && View(ExampleConfig, tr[3]) != FlatRun(tr, evs, 3)
  {
    hide Low, Shr, Pow2, FramesOk, BufferOk, FlatRun, View;
    var c, a, b := ExampleConfig, ExamplePage(1), ExamplePage(2);
    ExampleBuffer(a);
    ExampleBuffer(b);
    var s0 := State([], {}, Memories(map[PAGE_SIZE := d], map[]), None);
    var s1 := s0.(buffers := [a] + s0.buffers);
    var s2 := s1.(buffers := [b] + s1.buffers);
    var s3 := s2.(mem := Stored(s2.mem, HOST_ACCESS, PAGE_SIZE, d'));
    tr, evs := [s0, s1, s2, s3], [Create(a), Create(b), CpuWrite(0, 0, d')];
    assert s1.buffers == [a] && s2.buffers == [b, a];
    assert ProtocolStep(c, s0, evs[0], s1) && ProtocolStep(c, s1, evs[1], s2) && ProtocolStep(c, s2, evs[2], s3);
    RunOk(c, tr, evs, 3);
    assert PageOf(s3, 1, (0, 1));
    ViewAt(c, s3, 1, (0, 1));
    SharedFlat(tr, evs, a, b, d, d');
  }

  lemma SharedFlat(tr: seq<State>, evs: seq<Event>, a: Buffer, b: Buffer, d: Data, d': Data)
    requires |tr| == 4 && a == ExamplePage(1) && b == ExamplePage(2) && tr[2].buffers == [b, a]
    requires evs == [Create(a), Create(b), CpuWrite(0, 0, d')] && tr[0].mem == Memories(map[PAGE_SIZE := d], map[])
    ensures (0, 1) in FlatRun(tr, evs, 3) && FlatRun(tr, evs, 3)[(0, 1)] == Copies(d, [], true)
  {
    hide FlatRun;
    CreatedFlat(tr, evs, a, d);
    OnePage(b);
    FlatRunStep(tr, evs, 1);
    FlatRunStep(tr, evs, 2);
  }
}
