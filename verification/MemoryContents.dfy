/**
 What the driver's calls do to the contents of memory. Where no two buffers share a frame, faults,
 offloads, syncs and releases act on the flat memory of two copies per page, and nothing else shows.
 */
module MemoryContents {
  import opened Bits
  import opened Tlb
  import opened TlbMapping
  import opened BufferTable
  import opened Wrappers
  import opened Dma
  import opened VirtualMemory
  import opened FlatMemory
  import opened RangeMoves
  import opened MemoryManager

  lemma {:induction false} QuietPath(c: Config, tr: seq<State>, evs: seq<Event>, m: nat, n: nat)
    requires c.Valid() && Path(c, tr, evs) && m <= n <= |evs| && Exact(c, tr[m]) && UnderWay(evs, m)
    ensures Exact(c, tr[n]) && View(c, tr[n]) == View(c, tr[m])
    decreases n
  {
    hide BufferOk, FramesApart, Across, TlbOk, MoveOk, ProtocolStep, View;
    if n > m {
      QuietPath(c, tr, evs, m, n - 1);
      StepFlat(c, tr[n - 1], evs[n - 1], tr[n]);
    }
  }

  /** Bringing a buffer to a side: the flat memory sees its first event and nothing else. */
  lemma PlacedFlat(c: Config, s: State, i: nat, w: Window, side: nat, first: bool)
    requires c.Valid() && Exact(c, s) && Movable(c, s, i, w, side, first)
    ensures var s' := Placed(c, s, i, side, w, Before(c, s, i, first));
            Exact(c, s') && View(c, s') == FlatStep(s, Begin(s, i, w, side, first), View(c, s))
  {
    hide BufferOk, FramesApart, Across, TlbOk, MoveOk, ProtocolStep, View, Placed, FlatStep;
    var tr, evs := PlacedByProtocol(c, s, i, w, side, first);
    assert !evs[0].Create?;
    hide Begin;
    StepFlat(c, tr[0], evs[0], tr[1]);
    QuietPath(c, tr, evs, 1, |evs|);
  }

  /** Changing sides makes both copies of every page of the buffer what its current copy was. */
  lemma PlacedKeeps(c: Config, s: State, i: nat, w: Window, side: nat, first: bool)
    requires c.Valid() && Exact(c, s) && Movable(c, s, i, w, side, first) && s.buffers[i].host != side
    ensures var s' := Placed(c, s, i, side, w, Before(c, s, i, first));
            && Exact(c, s') && View(c, s') == Switched(s.buffers[i], View(c, s))
            && Contents(View(c, s')) == Contents(View(c, s))
  {
    hide BufferOk, FramesApart, Across, TlbOk, MoveOk, View, Placed, Switched;
    PlacedFlat(c, s, i, w, side, first);
    SwitchKeeps(s.buffers[i], View(c, s));
  }

  // ---------------------------------------------------------------------------------------------
  // The page-fault handler
  // ---------------------------------------------------------------------------------------------

  /** What a hit does to the flat memory: a fault from the other side switches the buffer it hits. */
  ghost function FlatHit(s: State, f: Fault, i: nat, v: Flat): Flat
    requires i < |s.buffers|
  {
    if (f.stream == HOST_ACCESS || f.stream == CARD_ACCESS) && s.buffers[i].host != f.stream
    then Switched(s.buffers[i], v) else v
  }

  /** A hit keeps what the FPGA sees of every page, whichever way it goes. */
  lemma HitKeeps(c: Config, s: State, f: Fault, i: nat, w: Window, s': State, ret: int)
    requires c.Valid() && Exact(c, s) && s.move.None? && i < |s.buffers| && WindowOk(c, s.buffers[i], w)
    requires HitResult(c, s, f, i, w, s', ret)
    ensures Exact(c, s') && View(c, s') == FlatHit(s, f, i, View(c, s))
    ensures Contents(View(c, s')) == Contents(View(c, s))
  {
    hide FramesOk, FramesApart, Across, TlbOk, MoveOk, NonZero, Placed, WindowEntries, View, Switched;
    if f.stream == HOST_ACCESS || f.stream == CARD_ACCESS {
      if s.buffers[i].host == f.stream {
        StepFlat(c, s, MapWindow(i, w), s');
      } else {
        PlacedKeeps(c, s, i, w, f.stream, false);
      }
    }
  }

  /** What a miss does to it: the new pages appear; a fault from the card switches them at once. */
  ghost function FlatMiss(s: State, f: Fault, gr: Option<Grant>, w: Window, v: Flat): Flat {
    if w.n == 0 || gr.None? then v
    else
      var b := NewBuffer(gr.value, w, f.huge, f.ctid);
      if f.stream == CARD_ACCESS then Switched(b, FlatStep(s, Create(b), v)) else FlatStep(s, Create(b), v)
  }

  /** A miss adds the new buffer's pages with their host contents and changes no other page. */
  lemma MissKeeps(c: Config, s: State, f: Fault, gr: Option<Grant>, w: Window, n0: nat, s': State, ret: int)
    requires c.Valid() && Exact(c, s) && s.move.None? && FramesApart(s'.buffers)
    requires Answer(Members(s.buffers, f.ctid), Window(w.vaddr, n0), None, w.n)
    requires gr.Some? ==> GrantOk(c, gr.value, w, f.huge, f.ctid)
    requires MissResult(c, s, f, gr, w, s', ret)
    ensures Exact(c, s') && View(c, s') == FlatMiss(s, f, gr, w, View(c, s))
    ensures w.n > 0 && gr.Some? ==>
              var b := NewBuffer(gr.value, w, f.huge, f.ctid);
              Contents(View(c, s')) == Contents(FlatStep(s, Create(b), View(c, s)))
  {
    hide FramesOk, FramesApart, Across, TlbOk, MoveOk, NonZero, WindowEntries, View, FlatStep, Switched, Contents;
    if w.n > 0 && gr.Some? {
      var b := NewBuffer(gr.value, w, f.huge, f.ctid);
      MissCreates(c, s, f, gr.value, w, n0);
      var s1 := s.(buffers := [b] + s.buffers);
      SameApart(s'.buffers, s1.buffers);
      hide Placed;
      StepFlat(c, s, Create(b), s1);
      if f.stream != CARD_ACCESS {
        MapFlat(c, s1, 0, w, s');
      } else {
        NewUnmapped(c, s, b, s1);
        PlacedKeeps(c, s1, 0, w, CARD_ACCESS, true);
      }
    }
  }

  /**
   A page of a new buffer, in terms of what was pinned and allocated: it shows the pinned page, on the
   host with the card frame's old contents behind it, or copied to the card.
   */
  lemma MissShows(c: Config, s: State, f: Fault, gr: Grant, w: Window, n0: nat, s': State, ret: int, k: nat)
    requires c.Valid() && Exact(c, s) && s.move.None? && FramesApart(s'.buffers)
    requires Answer(Members(s.buffers, f.ctid), Window(w.vaddr, n0), None, w.n)
    requires GrantOk(c, gr, w, f.huge, f.ctid) && MissResult(c, s, f, Some(gr), w, s', ret) && k < w.n
    ensures Exact(c, s') && |gr.hpages| == |gr.cpages| == w.n && (f.ctid, w.vaddr + k) in View(c, s')
    ensures var pinned, left := Read(s.mem.host, gr.hpages[k]), Read(s.mem.card, gr.cpages[k]);
            View(c, s')[(f.ctid, w.vaddr + k)]
            == if f.stream == CARD_ACCESS then Copies(pinned, pinned, false) else Copies(pinned, left, true)
  {
    hide FramesOk, FramesApart, Across, TlbOk, MoveOk, NonZero, View, MissResult;
    MissKeeps(c, s, f, Some(gr), w, n0, s', ret);
    var b := NewBuffer(gr, w, f.huge, f.ctid);
    assert (f.ctid, w.vaddr + k) in PagesOf(b);
  }

  lemma MapFlat(c: Config, s: State, i: nat, w: Window, s': State)
    requires c.Valid() && Exact(c, s) && ProtocolStep(c, s, MapWindow(i, w), s')
    ensures Exact(c, s') && View(c, s') == View(c, s)
  {
    hide Exact, ProtocolStep, View;
    StepFlat(c, s, MapWindow(i, w), s');
  }

  /** What a fault does to the flat memory. */
  ghost function FlatFault(s: State, f: Fault, gr: Option<Grant>, hit: Option<nat>, w: Window, v: Flat): Flat {
    if hit.None? then FlatMiss(s, f, gr, w, v)
    else if hit.value < |s.buffers| then FlatHit(s, f, hit.value, v)
    else v
  }

  lemma FaultFlat(c: Config, s: State, f: Fault, gr: Option<Grant>, hit: Option<nat>, w: Window, s': State, ret: int)
    requires c.Valid() && Exact(c, s) && s.move.None? && FaultStep(c, s, f, gr, hit, w, s', ret)
    requires FramesApart(s'.buffers)
    ensures Exact(c, s') && View(c, s') == FlatFault(s, f, gr, hit, w, View(c, s))
  {
    hide Ok, FramesApart, Across, View, FlatHit, FlatMiss, FaultWindow, HitResult, MissResult, Answer, GrantOk;
    if hit.Some? {
      HitKeeps(c, s, f, hit.value, w, s', ret);
    } else {
      MissKeeps(c, s, f, gr, w, FaultWindow(c.g, f.huge, f.addr, f.len).n, s', ret);
    }
  }

  // ---------------------------------------------------------------------------------------------
  // Offload and sync
  // ---------------------------------------------------------------------------------------------

  /** The pages of one buffer sent to a side. */
  ghost function Sent(b: Buffer, side: nat, v: Flat): Flat {
    map x | x in v :: if x in PagesOf(b) then v[x].Sent(side == HOST_ACCESS) else v[x]
  }

  /** The flat memory knows on which side a buffer is. */
  lemma FlagAt(c: Config, s: State, i: nat, x: Page)
    requires c.Valid() && TableOk(c, s.buffers) && i < |s.buffers| && !s.Moving(i) && x in PagesOf(s.buffers[i])
    ensures x in View(c, s) && View(c, s)[x].onHost == (s.buffers[i].host == HOST_ACCESS)
  {
    hide FramesOk, NonZero, View;
    assert PageOf(s, i, x);
    ViewAt(c, s, i, x);
  }

  lemma BeginIsSent(c: Config, s: State, i: nat, w: Window, side: nat)
    requires c.Valid() && TableOk(c, s.buffers) && s.move.None? && i < |s.buffers|
    requires BufferOk(c, s.buffers[i]) && (side == HOST_ACCESS || side == CARD_ACCESS)
    ensures FlatStep(s, Begin(s, i, w, side, false), View(c, s)) == Sent(s.buffers[i], side, View(c, s))
  {
    hide FramesOk, NonZero, TableOk, View;
    forall x | x in PagesOf(s.buffers[i])
      ensures x in View(c, s) && View(c, s)[x].onHost == (s.buffers[i].host == HOST_ACCESS)
    {
      FlagAt(c, s, i, x);
    }
  }

  /** Moving a buffer, from whatever side, makes both copies of its pages those of the side it comes from. */
  lemma ForcedFlat(c: Config, s: State, i: nat, side: nat)
    requires c.Valid() && Exact(c, s) && s.move.None? && i < |s.buffers| && (side == HOST_ACCESS || side == CARD_ACCESS)
    ensures BufferOk(c, s.buffers[i])
    ensures var s' := Forced(c, s, i, side);
            Exact(c, s') && s'.move.None? && View(c, s') == Sent(s.buffers[i], side, View(c, s))
  {
    hide FramesOk, FramesApart, Across, NonZero, TlbOk, MoveOk, View, Sent, FlatStep;
    NewWindowOk(c, s.buffers[i], Whole(s.buffers[i]));
    PlacedFlat(c, s, i, Whole(s.buffers[i]), side, false);
    BeginIsSent(c, s, i, Whole(s.buffers[i]), side);
  }

  /** The page belongs to one of the listed buffers. */
  ghost predicate Listed(bs: seq<Buffer>, moves: seq<nat>, x: Page) {
    exists k :: 0 <= k < |moves| && moves[k] < |bs| && x in PagesOf(bs[moves[k]])
  }

  /** The pages of listed buffers sent to a side, in any order. */
  ghost function AllSent(bs: seq<Buffer>, moves: seq<nat>, side: nat, v: Flat): Flat {
    map x | x in v :: if Listed(bs, moves, x) then v[x].Sent(side == HOST_ACCESS) else v[x]
  }

  lemma SentOneMore(bs: seq<Buffer>, moves: seq<nat>, b: Buffer, side: nat, v: Flat)
    requires moves != [] && moves[|moves| - 1] < |bs| && PagesOf(b) == PagesOf(bs[moves[|moves| - 1]])
    ensures Sent(b, side, AllSent(bs, moves[..|moves| - 1], side, v)) == AllSent(bs, moves, side, v)
  {
    var n := |moves| - 1;
    forall x: Page ensures Listed(bs, moves, x) <==> Listed(bs, moves[..n], x) || x in PagesOf(b) {
      if k :| 0 <= k < |moves| && moves[k] < |bs| && x in PagesOf(bs[moves[k]]) {
        if k < n { assert moves[..n][k] == moves[k]; }
      }
      if k :| 0 <= k < n && moves[..n][k] < |bs| && x in PagesOf(bs[moves[..n][k]]) {
        assert moves[k] == moves[..n][k];
      }
    }
  }

  lemma {:induction false} ForcedAllFlat(c: Config, s: State, moves: seq<nat>, side: nat)
    requires c.Valid() && Exact(c, s) && s.move.None? && (side == HOST_ACCESS || side == CARD_ACCESS)
    requires InTable(moves, |s.buffers|)
    ensures AllOk(c, s.buffers)
    ensures var s' := ForcedAll(c, s, moves, side);
            Exact(c, s') && s'.move.None? && View(c, s') == AllSent(s.buffers, moves, side, View(c, s))
    decreases |moves|
  {
    hide BufferOk, TlbOk, MoveOk, FramesApart, Across, Forced, Sent, View;
    OkAll(c, s);
    if moves == [] {
      assert AllSent(s.buffers, moves, side, View(c, s)) == View(c, s);
    } else {
      var n := |moves| - 1;
      ForcedAllFlat(c, s, moves[..n], side);
      var s1 := ForcedAll(c, s, moves[..n], side);
      ForcedAllSides(c, s, moves[..n], side, moves[n]);
      assert PagesOf(s1.buffers[moves[n]]) == PagesOf(s.buffers[moves[n]]);
      hide AllSent;
      ForcedFlat(c, s1, moves[n], side);
      SentOneMore(s.buffers, moves, s1.buffers[moves[n]], side, View(c, s));
    }
  }

  /** The listed pages that are on the side already have equal copies. */
  ghost predicate InStep(bs: seq<Buffer>, moves: seq<nat>, side: nat, v: Flat) {
    forall x :: x in v && Listed(bs, moves, x) && v[x].onHost == (side == HOST_ACCESS) ==> v[x].host == v[x].card
  }

  /** Sending pages to a side keeps their contents exactly when those already there have equal copies. */
  lemma SentKeeps(bs: seq<Buffer>, moves: seq<nat>, side: nat, v: Flat)
    ensures Contents(AllSent(bs, moves, side, v)) == Contents(v) <==> InStep(bs, moves, side, v)
  {
    hide Listed;
    var v' := AllSent(bs, moves, side, v);
    forall x | x in v
      ensures v'[x].Current() == v[x].Current() <==>
              (Listed(bs, moves, x) && v[x].onHost == (side == HOST_ACCESS) ==> v[x].host == v[x].card)
    {
    }
    if Contents(v') == Contents(v) {
      forall x | x in v ensures v'[x].Current() == v[x].Current() {
        assert Contents(v')[x] == Contents(v)[x];
      }
    }
  }

  /** The same for a whole offload or sync request that comes to an end. */
  lemma RangeKeeps(c: Config, s: State, t: Table, v: nat, last: nat, side: nat)
    requires c.Valid() && Exact(c, s) && s.move.None? && (side == HOST_ACCESS || side == CARD_ACCESS)
    requires t.bs == s.buffers && t.Ends(v, last)
    ensures AllOk(c, s.buffers) && InTable(t.Loop(v, last), |s.buffers|)
    ensures var s' := ForcedAll(c, s, t.Loop(v, last), side);
            && Exact(c, s')
            && (Contents(View(c, s')) == Contents(View(c, s))
                <==> InStep(s.buffers, t.Loop(v, last), side, View(c, s)))
  {
    hide BufferOk, FramesApart, Across, TlbOk, MoveOk, Forced, ForcedAll, AllSent, InStep, Contents, View;
    LoopInTable(t, v, last);
    ForcedAllFlat(c, s, t.Loop(v, last), side);
    SentKeeps(s.buffers, t.Loop(v, last), side, View(c, s));
  }

  /** What one page becomes when its buffer is moved to the side it is already on. */
  lemma ForcedInPlace(c: Config, s: State, i: nat, k: nat)
    requires c.Valid() && Exact(c, s) && s.move.None? && i < |s.buffers| && k < s.buffers[i].Pages()
    ensures BufferOk(c, s.buffers[i])
    ensures var b := s.buffers[i];
            var s' := Forced(c, s, i, b.host);
            && |b.cpages| == |b.hpages| && PageValue(s', i, k) == PageValue(s, i, k).Repeated()
            && (PageValue(s', i, k).Current() == PageValue(s, i, k).Current()
                <==> Read(s.mem.host, b.hpages[k]) == Read(s.mem.card, b.cpages[k]))
  {
    hide FramesOk, NonZero, FramesApart, Across, TlbOk, MoveOk, View, Forced;
    var b := s.buffers[i];
    var x: Page := (b.ctid, b.vaddr + k);
    ForcedFlat(c, s, i, b.host);
    var s' := Forced(c, s, i, b.host);
    assert PageOf(s, i, x) && PageOf(s', i, x) && x in PagesOf(b);
    ViewAt(c, s, i, x);
    ViewAt(c, s', i, x);
  }

  /** Host and card copy of a buffer hold the same pages. */
  ghost predicate Mirrored(s: State, i: nat)
    requires i < |s.buffers|
  {
    var b := s.buffers[i];
    && |b.cpages| == |b.hpages|
    && forall k :: 0 <= k < |b.hpages| ==> Read(s.mem.host, b.hpages[k]) == Read(s.mem.card, b.cpages[k])
  }

  /** Every buffer is in order and has card frames of its own; host frames may be shared. */
  ghost predicate TableApart(c: Config, bs: seq<Buffer>)
    requires c.Valid()
  {
    TableOk(c, bs) && CardApart(bs)
  }

  /** An offload leaves host memory alone, mirrors its buffer and disturbs no other mirrored buffer. */
  lemma OffloadMirrors(c: Config, s: State, i: nat, k: nat)
    requires c.Valid() && TableApart(c, s.buffers) && i < |s.buffers| && k < |s.buffers| && (k == i || Mirrored(s, k))
    ensures BufferOk(c, s.buffers[i])
    ensures var s' := Forced(c, s, i, CARD_ACCESS); s'.mem.host == s.mem.host && Mirrored(s', k)
  {
    hide FramesOk, WindowEntries, Invalidated, NonZero;
    var b := s.buffers[i].(host := CARD_ACCESS);
    var j, s' := JobOf(b), Forced(c, s, i, CARD_ACCESS);
    CopiedPages(j, s.mem, b.Pages());
    forall l | 0 <= l < |s.buffers[k].hpages|
      ensures Read(s'.mem.host, s.buffers[k].hpages[l]) == Read(s'.mem.card, s.buffers[k].cpages[l])
    {
      if k == i {
        assert Read(Target(j.dir, s'.mem), To(j)[l]) == Read(Source(j.dir, s.mem), From(j)[l]);
      } else {
        assert s.buffers[k].cpages[l] !in To(j)[..b.Pages()];
      }
    }
  }

  /** Copying pages back that are equal already changes nothing, however often a frame occurs. */
  lemma {:induction false} CopiedEqual(m: Memories, cs: seq<Command>, n: nat, a: nat)
    requires n <= |cs| && forall k :: 0 <= k < n ==> Read(m.host, cs[k].host) == Read(m.card, cs[k].card)
    ensures var m' := CopiedAll(ToHost, m, cs, n); m'.card == m.card && Read(m'.host, a) == Read(m.host, a)
  {
    if n > 0 { CopiedEqual(m, cs, n - 1, a); }
  }

  /** Syncing a mirrored buffer changes no page of host memory and no page of the card. */
  lemma SyncMirrored(c: Config, s: State, i: nat, a: nat)
    requires c.Valid() && TableApart(c, s.buffers) && i < |s.buffers| && Mirrored(s, i)
    ensures BufferOk(c, s.buffers[i])
    ensures var s' := Forced(c, s, i, HOST_ACCESS);
            s'.mem.card == s.mem.card && Read(s'.mem.host, a) == Read(s.mem.host, a)
  {
    hide FramesOk, CardApart, WindowEntries, Invalidated;
    var j := JobOf(s.buffers[i].(host := HOST_ACCESS));
    OnePerPage(j, 0);
    CopiedEqual(s.mem, j.Commands(0), |j.Commands(0)|, a);
  }

  lemma ForcedTableApart(c: Config, s: State, i: nat, side: nat)
    requires c.Valid() && TableApart(c, s.buffers) && i < |s.buffers| && (side == HOST_ACCESS || side == CARD_ACCESS)
    ensures BufferOk(c, s.buffers[i]) && TableApart(c, Forced(c, s, i, side).buffers)
  {
    hide FramesOk, WindowEntries, Invalidated, Placed;
    if s.buffers[i].host == side {
      assert s.buffers[i := s.buffers[i].(host := side)] == s.buffers;
    } else {
      FlippedOk(c, s, i);
    }
  }

  lemma {:induction false} OffloadAll(c: Config, s: State, moves: seq<nat>, k: nat)
    requires c.Valid() && TableApart(c, s.buffers) && InTable(moves, |s.buffers|)
    ensures AllOk(c, s.buffers)
    ensures var s' := ForcedAll(c, s, moves, CARD_ACCESS);
            TableApart(c, s'.buffers) && s'.mem.host == s.mem.host && (k in moves ==> Mirrored(s', k))
    decreases |moves|
  {
    hide BufferOk, CardApart, Forced, Mirrored;
    if moves != [] {
      var n := |moves| - 1;
      assert moves == moves[..n] + [moves[n]];
      OffloadAll(c, s, moves[..n], k);
      var s1 := ForcedAll(c, s, moves[..n], CARD_ACCESS);
      ForcedTableApart(c, s1, moves[n], CARD_ACCESS);
      OffloadMirrors(c, s1, moves[n], if k in moves then k else moves[n]);
    }
  }

  lemma {:induction false} SyncAll(c: Config, s: State, moves: seq<nat>, a: nat)
    requires c.Valid() && TableApart(c, s.buffers) && InTable(moves, |s.buffers|)
    requires forall k :: 0 <= k < |moves| ==> Mirrored(s, moves[k])
    ensures AllOk(c, s.buffers)
    ensures var s' := ForcedAll(c, s, moves, HOST_ACCESS);
            TableApart(c, s'.buffers) && s'.mem.card == s.mem.card && Read(s'.mem.host, a) == Read(s.mem.host, a)
    decreases |moves|
  {
    hide BufferOk, CardApart, Forced;
    if moves != [] {
      var n := |moves| - 1;
      SyncAll(c, s, moves[..n], a);
      var s1 := ForcedAll(c, s, moves[..n], HOST_ACCESS);
      assert Mirrored(s1, moves[n]) by {
        var b := s.buffers[moves[n]];
        ForcedAllSides(c, s, moves[..n], HOST_ACCESS, moves[n]);
        forall l | 0 <= l < |b.hpages| ensures Read(s1.mem.host, b.hpages[l]) == Read(s1.mem.card, b.cpages[l]) {
          SyncAll(c, s, moves[..n], b.hpages[l]);
          assert Mirrored(s, moves[n]);
        }
      }
      ForcedTableApart(c, s1, moves[n], HOST_ACCESS);
      SyncMirrored(c, s1, moves[n], a);
    }
  }

  /**
   Offloading any buffers, from whatever side they are on, and then syncing some of them leaves
   every page of host memory as it was before.
   */
  lemma OffloadThenSyncIdentity(c: Config, s: State, out: seq<nat>, back: seq<nat>, a: nat)
    requires c.Valid() && TableApart(c, s.buffers) && InTable(out, |s.buffers|)
    requires forall k :: 0 <= k < |back| ==> back[k] in out
    ensures AllOk(c, s.buffers) && InTable(back, |s.buffers|)
    ensures Read(ForcedAll(c, ForcedAll(c, s, out, CARD_ACCESS), back, HOST_ACCESS).mem.host, a) == Read(s.mem.host, a)
  {
    hide BufferOk, CardApart, ForcedAll, Mirrored;
    OffloadAll(c, s, out, 0);
    var s1 := ForcedAll(c, s, out, CARD_ACCESS);
    forall k | 0 <= k < |back| ensures back[k] < |s.buffers| && Mirrored(s1, back[k]) {
      OffloadAll(c, s, out, back[k]);
    }
    SyncAll(c, s1, back, a);
  }

  // ---------------------------------------------------------------------------------------------
  // Runs of calls
  // ---------------------------------------------------------------------------------------------

  /** What a call does to the flat memory. Of the table only page ranges, chains and flags matter here. */
  ghost function FlatCall(hash: nat -> nat, s: State, call: Call, v: Flat): Flat {
    match call
    case PageFault(f, gr, hit, w) => FlatFault(s, f, gr, hit, w, v)
    case MoveRange(from, last, ctid, side) =>
      var t := Table(s.buffers, ctid, hash);
      if t.Ends(from, last) then AllSent(s.buffers, t.Loop(from, last), side, v) else v
    case Put(page, ctid) =>
      var i := Found(s.buffers, ctid, hash, page);
      if i < |s.buffers| then v - PagesOf(s.buffers[i]) else v
    case Outside(ev) => FlatStep(s, ev, v)
  }

  /** Every call does to the flat memory what is said of it. */
  lemma CallFlat(c: Config, hash: nat -> nat, s: State, call: Call, s': State)
    requires c.Valid() && Exact(c, s) && s.move.None? && CallStep(c, hash, s, call, s')
    requires call.PageFault? ==> FramesApart(s'.buffers)
    ensures Exact(c, s') && View(c, s') == FlatCall(hash, s, call, View(c, s))
  {
    hide Ok, FramesApart, Across, View, FaultStep, FlatFault, AllSent, ForcedAll, BufferOk, Cleared;
    match call {
      case PageFault(f, gr, hit, w) =>
        var ret :| FaultStep(c, s, f, gr, hit, w, s', ret);
        FaultFlat(c, s, f, gr, hit, w, s', ret);
      case MoveRange(v, last, ctid, side) =>
        ForcedAllFlat(c, s, Table(s.buffers, ctid, hash).Loop(v, last), side);
      case Put(v, ctid) =>
        var i := Found(s.buffers, ctid, hash, v);
        if i < |s.buffers| { StepFlat(c, s, Release(i), s'); }
      case Outside(ev) => StepFlat(c, s, ev, s');
    }
  }

  /** No fault among the first `n` calls leaves two buffers with one frame. */
  ghost predicate UnsharedCalls(tr: seq<State>, calls: seq<Call>, n: nat)
    requires n <= |calls| < |tr|
  {
    forall i :: 0 <= i < n && calls[i].PageFault? ==> FramesApart(tr[i + 1].buffers)
  }

  /** The flat memory's own history of a run of calls. */
  ghost function FlatCalls(hash: nat -> nat, tr: seq<State>, calls: seq<Call>, n: nat): Flat
    requires n <= |calls| < |tr|
  {
    if n == 0 then map[] else FlatCall(hash, tr[n - 1], calls[n - 1], FlatCalls(hash, tr, calls, n - 1))
  }

  /** Up to the first shared frame, on every run of faults, offloads, syncs and releases memory is flat. */
  lemma {:induction false} CallsRefineFlat(c: Config, hash: nat -> nat, tr: seq<State>, calls: seq<Call>, n: nat)
    requires c.Valid() && CallRun(c, hash, tr, calls) && n <= |calls| && UnsharedCalls(tr, calls, n)
    ensures Exact(c, tr[n]) && tr[n].move.None? && View(c, tr[n]) == FlatCalls(hash, tr, calls, n)
  {
    hide CallStep, FlatCall, View, Ok, FramesApart, Across;
    CallsOk(c, hash, tr, calls, n);
    if n == 0 {
      EmptyExact(c, tr[0]);
    } else {
      CallsRefineFlat(c, hash, tr, calls, n - 1);
      CallFlat(c, hash, tr[n - 1], calls[n - 1], tr[n]);
    }
  }

  /** What the FPGA reads between two calls of such a run, through any entry, is the current copy of the page. */
  lemma CallsReadFlat(c: Config, hash: nat -> nat, tr: seq<State>, calls: seq<Call>, n: nat, e: Entry, page: nat)
    requires c.Valid() && CallRun(c, hash, tr, calls) && n <= |calls| && UnsharedCalls(tr, calls, n)
    requires e in tr[n].tlb && Covers(c.g, e, page)
    ensures (e.ctid, page) in FlatCalls(hash, tr, calls, n)
    ensures Read(if e.strm == HOST_ACCESS then tr[n].mem.host else tr[n].mem.card, Translate(c.g, e, page))
         == FlatCalls(hash, tr, calls, n)[(e.ctid, page)].Current()
  {
    hide CallStep, FlatCalls, View, Ok, FramesApart, Across, Covers, Translate;
    CallsRefineFlat(c, hash, tr, calls, n);
    ReadsAreFlat(c, tr[n], e, page);
  }
}
