/**
 How a run of pages is cut into TLB entries. The driver walks the pages and coalesces an aligned,
 physically contiguous group into one large entry; here that walk is a list of steps, described
 a second time page by page, and the entries it produces are related to the page arrays.
 */
module TlbMapping {
  import opened Bits
  import opened Tlb

  /** `MAX_N_MAP_PAGES`: entries one map call may create. */
  const MAX_N_MAP_PAGES: nat := 256

  /** One iteration of the map or unmap walk: the page index it is at and the TLB it addresses. */
  datatype Step = Step(at: nat, huge: bool)

  /** The `n` frames from page `i` on lie one behind the other. */
  ghost predicate Contiguous(fs: seq<nat>, i: nat, n: nat)
    requires i < |fs| && i + n <= |fs|
  {
    forall j :: i <= j < i + n ==> fs[j] == fs[i] + (j - i) * PAGE_SIZE
  }

  /** The test the walk makes at page `i` of a run that starts at virtual page `vaddr`. */
  ghost predicate CanCoalesce(g: Geometry, fs: seq<nat>, vaddr: nat, i: nat)
    requires g.Valid()
  {
    var h := g.PagesInHuge();
    && i + h <= |fs|
    && g.large.Offset(vaddr + i) == 0
    && Low(fs[i], g.large.pageShift) == 0
    && Contiguous(fs, i, h)
  }

  /** The walk from page `i` on; a huge buffer never looks at its frames. */
  ghost function Walk(g: Geometry, fs: seq<nat>, vaddr: nat, huge: bool, i: nat): seq<Step>
    requires g.Valid()
    decreases |fs| - i
  {
    if i >= |fs| then []
    else
      var h := huge || CanCoalesce(g, fs, vaddr, i);
      [Step(i, h)] + Walk(g, fs, vaddr, huge, i + g.Span(h))
  }

  lemma WalkStep(g: Geometry, fs: seq<nat>, vaddr: nat, huge: bool, i: nat, h: bool, done: seq<Step>)
    requires g.Valid() && i < |fs| && h == (huge || CanCoalesce(g, fs, vaddr, i))
    ensures done + Walk(g, fs, vaddr, huge, i)
         == done + [Step(i, h)] + Walk(g, fs, vaddr, huge, i + (if h then g.PagesInHuge() else 1))
  {
    assert g.Span(false) == 1;
  }

  /** The steps one map call carries out: the walk, cut after `MAX_N_MAP_PAGES` entries. */
  ghost function MapSteps(g: Geometry, fs: seq<nat>, vaddr: nat, huge: bool): seq<Step>
    requires g.Valid()
  {
    var w := Walk(g, fs, vaddr, huge, 0);
    if |w| <= MAX_N_MAP_PAGES then w else w[..MAX_N_MAP_PAGES]
  }

  // ---------------------------------------------------------------------------------------------
  // The walk, page by page
  // ---------------------------------------------------------------------------------------------

  /** Page `i` belongs to a group that the walk coalesces: the aligned group around it qualifies. */
  ghost predicate InGroup(g: Geometry, fs: seq<nat>, vaddr: nat, i: nat)
    requires g.Valid()
  {
    var off := g.large.Offset(vaddr + i);
    off <= i && CanCoalesce(g, fs, vaddr, i - off)
  }

  /** The steps described without walking: large at every group start, small outside every group. */
  ghost predicate Chosen(g: Geometry, fs: seq<nat>, vaddr: nat, s: Step)
    requires g.Valid()
  {
    s.at < |fs| && if s.huge then CanCoalesce(g, fs, vaddr, s.at) else !InGroup(g, fs, vaddr, s.at)
  }

  /** Stepping inside an aligned group counts the offset up from zero. */
  lemma OffsetInGroup(g: Geometry, page: nat, k: nat)
    requires g.Valid() && g.large.Offset(page) == 0
    ensures k < g.PagesInHuge() ==> g.large.Offset(page + k) == k
    ensures k == g.PagesInHuge() ==> g.large.Offset(page + k) == 0
  {
    var o := g.large.pageShift - PAGE_SHIFT;
    ShrLow(page, o);
    var q := Shr(page, o);
    if k < g.PagesInHuge() { Unique(page + k, o, q, k); }
    if k == g.PagesInHuge() {
      Distribute(q, 1, Pow2(o));
      Unique(page + k, o, q + 1, 0);
    }
  }

  lemma OffsetNext(g: Geometry, page: nat)
    requires g.Valid()
    ensures g.large.Offset(page + 1) == 0 || g.large.Offset(page + 1) == g.large.Offset(page) + 1
  {
    var o := g.large.pageShift - PAGE_SHIFT;
    ShrLow(page, o);
    var off := g.large.Offset(page);
    assert page - off >= 0 by { MulNonNeg(Shr(page, o), Pow2(o)); }
    ShlShr(Shr(page, o), o);
    OffsetInGroup(g, page - off, off + 1);
  }

  /** Inside a coalesced group the large step at its start is the only chosen one. */
  lemma ChosenInGroup(g: Geometry, fs: seq<nat>, vaddr: nat, i: nat, s: Step)
    requires g.Valid() && CanCoalesce(g, fs, vaddr, i) && i <= s.at < i + g.PagesInHuge()
    ensures Chosen(g, fs, vaddr, s) <==> s == Step(i, true)
  {
    OffsetInGroup(g, vaddr + i, s.at - i);
    assert vaddr + i + (s.at - i) == vaddr + s.at;
    assert s.at - (s.at - i) == i;
  }

  /** The walk takes exactly the chosen steps that lie at or after the page it starts from. */
  lemma {:induction false} WalkIsChosen(g: Geometry, fs: seq<nat>, vaddr: nat, i: nat, s: Step)
    requires g.Valid()
    requires i < |fs| && g.large.Offset(vaddr + i) != 0 ==> !InGroup(g, fs, vaddr, i)
    ensures s in Walk(g, fs, vaddr, false, i) <==> i <= s.at && Chosen(g, fs, vaddr, s)
    decreases |fs| - i, 1
  {
    if i < |fs| {
      if CanCoalesce(g, fs, vaddr, i) {
        var h := g.PagesInHuge();
        OffsetInGroup(g, vaddr + i, h);
        assert vaddr + i + h == vaddr + (i + h);
        WalkIsChosen(g, fs, vaddr, i + h, s);
        if i <= s.at < i + h { ChosenInGroup(g, fs, vaddr, i, s); }
      } else {
        WalkIsChosenSmall(g, fs, vaddr, i, s);
      }
    }
  }

  lemma {:induction false} WalkIsChosenSmall(g: Geometry, fs: seq<nat>, vaddr: nat, i: nat, s: Step)
    requires g.Valid()
    requires i < |fs| && !CanCoalesce(g, fs, vaddr, i)
    requires g.large.Offset(vaddr + i) != 0 ==> !InGroup(g, fs, vaddr, i)
    ensures s in Walk(g, fs, vaddr, false, i) <==> i <= s.at && Chosen(g, fs, vaddr, s)
    decreases |fs| - i, 0
  {
    OffsetNext(g, vaddr + i);
    assert vaddr + i + 1 == vaddr + (i + 1);
    assert g.Span(false) == 1;
    assert !InGroup(g, fs, vaddr, i);
    WalkIsChosen(g, fs, vaddr, i + 1, s);
  }

  // ---------------------------------------------------------------------------------------------
  // Tiling
  // ---------------------------------------------------------------------------------------------

  /** The steps cover the page indices `[from, to)` one after the other, without gap or overlap. */
  ghost predicate Tiles(g: Geometry, steps: seq<Step>, from: nat, to: nat)
    requires g.Valid()
  {
    if steps == [] then from == to
    else steps[0].at == from && Tiles(g, steps[1..], from + g.Span(steps[0].huge), to)
  }

  /** A run whose length a huge buffer's walk divides evenly. */
  ghost predicate WholeGroups(g: Geometry, n: nat, huge: bool)
    requires g.Valid()
  {
    huge ==> g.large.Offset(n) == 0
  }

  lemma {:induction false} WalkTiles(g: Geometry, fs: seq<nat>, vaddr: nat, huge: bool, i: nat)
    requires g.Valid() && i <= |fs| && WholeGroups(g, |fs| - i, huge)
    ensures Tiles(g, Walk(g, fs, vaddr, huge, i), i, |fs|)
    decreases |fs| - i
  {
    if i < |fs| {
      var h := huge || CanCoalesce(g, fs, vaddr, i);
      if huge { GroupsLeft(g, |fs| - i); }
      assert g.Span(false) == 1;
      WalkTiles(g, fs, vaddr, huge, i + g.Span(h));
      assert Walk(g, fs, vaddr, huge, i)[1..] == Walk(g, fs, vaddr, huge, i + g.Span(h));
    }
  }

  lemma GroupsLeft(g: Geometry, n: nat)
    requires g.Valid() && n > 0 && g.large.Offset(n) == 0
    ensures n >= g.PagesInHuge() && g.large.Offset(n - g.PagesInHuge()) == 0
  {
    hide Low, Shr, Pow2;
    var o := g.large.pageShift - PAGE_SHIFT;
    ShrLow(n, o);
    var q := Shr(n, o);
    MulMono(1, q, Pow2(o));
    Distribute(q - 1, 1, Pow2(o));
    ShlShr(q - 1, o);
  }

  /** Every step of a tiling lies inside the tiled range. */
  lemma {:induction false} TilesBounds(g: Geometry, steps: seq<Step>, from: nat, to: nat, k: nat)
    requires g.Valid() && Tiles(g, steps, from, to)
    ensures from <= to
    ensures k < |steps| ==> from <= steps[k].at && steps[k].at + g.Span(steps[k].huge) <= to
  {
    if steps != [] {
      TilesBounds(g, steps[1..], from + g.Span(steps[0].huge), to, if k == 0 then 0 else k - 1);
    }
  }

  /** A prefix of a tiling tiles a prefix of the range. */
  lemma {:induction false} TilesPrefix(g: Geometry, steps: seq<Step>, from: nat, to: nat, k: nat) returns (mid: nat)
    requires g.Valid() && Tiles(g, steps, from, to) && k <= |steps|
    ensures from <= mid <= to && Tiles(g, steps[..k], from, mid)
    ensures k == |steps| ==> mid == to
  {
    TilesBounds(g, steps, from, to, 0);
    if k == 0 {
      mid := from;
    } else {
      mid := TilesPrefix(g, steps[1..], from + g.Span(steps[0].huge), to, k - 1);
      assert steps[..k][1..] == steps[1..][..k - 1];
    }
  }

  /** Every index of the tiled range belongs to a step. */
  lemma {:induction false} TilesFind(g: Geometry, steps: seq<Step>, from: nat, to: nat, p: nat) returns (k: nat)
    requires g.Valid() && Tiles(g, steps, from, to) && from <= p < to
    ensures k < |steps| && steps[k].at <= p < steps[k].at + g.Span(steps[k].huge)
  {
    if p < from + g.Span(steps[0].huge) {
      k := 0;
    } else {
      var j := TilesFind(g, steps[1..], from + g.Span(steps[0].huge), to, p);
      k := j + 1;
    }
  }

  // ---------------------------------------------------------------------------------------------
  // Entries
  // ---------------------------------------------------------------------------------------------

  /** Whose pages are being mapped, and on which side they live. */
  datatype Owner = Owner(host: nat, ctid: nat, hpid: nat)

  ghost function StepEntry(g: Geometry, fs: seq<nat>, vaddr: nat, s: Step, o: Owner): Entry
    requires g.Valid() && s.at < |fs|
  {
    MappedEntry(g, s.huge, vaddr + s.at, fs[s.at], o.host, o.ctid, o.hpid)
  }

  ghost function StepEntries(g: Geometry, fs: seq<nat>, vaddr: nat, steps: seq<Step>, o: Owner): set<Entry>
    requires g.Valid()
  {
    set s | s in steps && s.at < |fs| :: StepEntry(g, fs, vaddr, s, o)
  }

  /** Frames a TLB can represent; a huge run is made of aligned, contiguous groups. */
  ghost predicate FramesOk(g: Geometry, fs: seq<nat>, vaddr: nat, huge: bool)
    requires g.Valid()
  {
    InRange(fs) && (huge ==> WholeHuge(g, fs, vaddr))
  }

  ghost predicate InRange(fs: seq<nat>) {
    forall i :: 0 <= i < |fs| ==> Low(fs[i], PAGE_SHIFT) == 0 && fs[i] < Pow2(TLB_PADDR_RANGE)
  }

  ghost predicate WholeHuge(g: Geometry, fs: seq<nat>, vaddr: nat)
    requires g.Valid()
  {
    g.large.Offset(vaddr) == 0 && g.large.Offset(|fs|) == 0 && GroupsOk(g, fs, vaddr)
  }

  ghost predicate GroupsOk(g: Geometry, fs: seq<nat>, vaddr: nat)
    requires g.Valid()
  {
    forall i: nat {:trigger CanCoalesce(g, fs, vaddr, i)} ::
      i < |fs| && g.large.Offset(i) == 0 ==> CanCoalesce(g, fs, vaddr, i)
  }

  /** A step that may be taken: small, or large where the frames allow it. */
  ghost predicate Sound(g: Geometry, fs: seq<nat>, vaddr: nat, s: Step)
    requires g.Valid()
  {
    s.at < |fs| && (s.huge ==> CanCoalesce(g, fs, vaddr, s.at))
  }

  lemma {:induction false} WalkSound(g: Geometry, fs: seq<nat>, vaddr: nat, huge: bool, i: nat, s: Step)
    requires g.Valid() && (huge ==> GroupsOk(g, fs, vaddr) && g.large.Offset(i) == 0)
    requires s in Walk(g, fs, vaddr, huge, i)
    ensures Sound(g, fs, vaddr, s)
    decreases |fs| - i
  {
    hide Low, Shr, Pow2;
    var h := huge || CanCoalesce(g, fs, vaddr, i);
    assert h ==> CanCoalesce(g, fs, vaddr, i);
    if s != Step(i, h) {
      assert huge ==> g.large.Offset(i + g.Span(h)) == 0 by {
        if huge { OffsetInGroup(g, i, g.PagesInHuge()); }
      }
      assert s in Walk(g, fs, vaddr, huge, i + g.Span(h));
      WalkSound(g, fs, vaddr, huge, i + g.Span(h), s);
    }
  }

  /** The page a covering entry translates lies in the step's group, at the matching offset. */
  lemma CoveredByStep(g: Geometry, vaddr: nat, s: Step, p: nat)
    requires g.Valid() && (s.huge ==> g.large.Offset(vaddr + s.at) == 0)
    requires g.Meta(s.huge).Vpn(p) == g.Meta(s.huge).Vpn(vaddr + s.at)
    ensures vaddr + s.at <= p < vaddr + s.at + g.Span(s.huge)
    ensures g.Meta(s.huge).Offset(p) == p - (vaddr + s.at)
  {
    var o := g.Meta(s.huge).pageShift - PAGE_SHIFT;
    ShrLow(p, o);
    ShrLow(vaddr + s.at, o);
  }

  lemma StepCovers(g: Geometry, vaddr: nat, s: Step, p: nat)
    requires g.Valid() && (s.huge ==> g.large.Offset(vaddr + s.at) == 0)
    requires vaddr + s.at <= p < vaddr + s.at + g.Span(s.huge)
    ensures g.Meta(s.huge).Vpn(p) == g.Meta(s.huge).Vpn(vaddr + s.at)
  {
    var o := g.Meta(s.huge).pageShift - PAGE_SHIFT;
    if s.huge {
      var base := vaddr + s.at;
      ShrLow(base, o);
      Unique(p, o, Shr(base, o), p - base);
    } else {
      assert p == vaddr + s.at;
    }
  }

  /** A sound step's entry translates each page it covers to that page's own frame. */
  lemma StepExact(g: Geometry, fs: seq<nat>, vaddr: nat, s: Step, o: Owner, p: nat)
    requires g.Valid() && FramesOk(g, fs, vaddr, false) && Sound(g, fs, vaddr, s)
    requires Covers(g, StepEntry(g, fs, vaddr, s, o), p)
    ensures vaddr + s.at <= p < vaddr + s.at + g.Span(s.huge) && p - vaddr < |fs|
    ensures Translate(g, StepEntry(g, fs, vaddr, s, o), p) == fs[p - vaddr]
  {
    hide Low, Shr;
    CoveredByStep(g, vaddr, s, p);
    FrameExact(g.Meta(s.huge), fs[s.at]);
    if s.huge { assert fs[p - vaddr] == fs[s.at] + (p - vaddr - s.at) * PAGE_SIZE; }
  }

  /** How far one map call gets. */
  lemma MapReach(g: Geometry, fs: seq<nat>, vaddr: nat, huge: bool) returns (m: nat)
    requires g.Valid() && FramesOk(g, fs, vaddr, huge)
    ensures m <= |fs| && Tiles(g, MapSteps(g, fs, vaddr, huge), 0, m)
    ensures m == |fs| || |MapSteps(g, fs, vaddr, huge)| == MAX_N_MAP_PAGES
    ensures forall s :: s in MapSteps(g, fs, vaddr, huge) ==> Sound(g, fs, vaddr, s)
  {
    hide Low, Shr, Pow2;
    var w := Walk(g, fs, vaddr, huge, 0);
    WalkTiles(g, fs, vaddr, huge, 0);
    hide Walk, CanCoalesce, Sound;
    m := TilesPrefix(g, w, 0, |fs|, |MapSteps(g, fs, vaddr, huge)|);
    assert w[..|w|] == w;
    if huge { LowSmall(0, g.large.pageShift - PAGE_SHIFT); }
    forall s | s in MapSteps(g, fs, vaddr, huge)
      ensures Sound(g, fs, vaddr, s)
    {
      WalkSound(g, fs, vaddr, huge, 0, s);
    }
  }

  /**
   Coalesced mapping refines page-by-page mapping. The entries of one map call translate exactly
   the pages of a prefix of the window, each to its own frame, and the prefix is the whole window
   unless the call used up its entries.
   */
  lemma MapRefinesPaging(g: Geometry, fs: seq<nat>, vaddr: nat, huge: bool, o: Owner) returns (m: nat)
    requires g.Valid() && FramesOk(g, fs, vaddr, huge)
    ensures m <= |fs| && (m < |fs| ==> |MapSteps(g, fs, vaddr, huge)| == MAX_N_MAP_PAGES)
    ensures var es := StepEntries(g, fs, vaddr, MapSteps(g, fs, vaddr, huge), o);
            && (forall e, p: nat :: e in es && Covers(g, e, p) ==>
                  vaddr <= p < vaddr + m && Translate(g, e, p) == fs[p - vaddr])
            && (forall p: nat :: vaddr <= p < vaddr + m ==> Mapped(g, es, p))
  {
    m := MapReach(g, fs, vaddr, huge);
    var steps := MapSteps(g, fs, vaddr, huge);
    var es := StepEntries(g, fs, vaddr, steps, o);
    forall e, p: nat | e in es && Covers(g, e, p)
      ensures vaddr <= p < vaddr + m && Translate(g, e, p) == fs[p - vaddr]
    {
      EntryExact(g, fs, vaddr, steps, m, o, e, p);
    }
    forall p: nat | vaddr <= p < vaddr + m
      ensures Mapped(g, es, p)
    {
      EntryFound(g, fs, vaddr, steps, m, o, p);
    }
  }

  lemma MapEntryExact(g: Geometry, fs: seq<nat>, vaddr: nat, huge: bool, o: Owner, e: Entry, p: nat)
    requires g.Valid() && FramesOk(g, fs, vaddr, huge) && Covers(g, e, p)
    requires e in StepEntries(g, fs, vaddr, MapSteps(g, fs, vaddr, huge), o)
    ensures vaddr <= p < vaddr + |fs| && Translate(g, e, p) == fs[p - vaddr]
  {
    var m := MapReach(g, fs, vaddr, huge);
    EntryExact(g, fs, vaddr, MapSteps(g, fs, vaddr, huge), m, o, e, p);
  }

  ghost predicate Owned(e: Entry, o: Owner) {
    e.strm == o.host && e.ctid == o.ctid && e.hpid == o.hpid
  }

  lemma EntriesOwned(g: Geometry, fs: seq<nat>, vaddr: nat, huge: bool, o: Owner, e: Entry)
    requires g.Valid() && e in StepEntries(g, fs, vaddr, MapSteps(g, fs, vaddr, huge), o)
    ensures Owned(e, o)
  {
  }

  ghost predicate Mapped(g: Geometry, es: set<Entry>, p: nat)
    requires g.Valid()
  {
    exists e :: e in es && Covers(g, e, p)
  }

  lemma EntryExact(g: Geometry, fs: seq<nat>, vaddr: nat, steps: seq<Step>, m: nat, o: Owner, e: Entry, p: nat)
    requires g.Valid() && FramesOk(g, fs, vaddr, false) && Tiles(g, steps, 0, m)
    requires forall s :: s in steps ==> Sound(g, fs, vaddr, s)
    requires e in StepEntries(g, fs, vaddr, steps, o) && Covers(g, e, p)
    ensures vaddr <= p < vaddr + m && p - vaddr < |fs| && Translate(g, e, p) == fs[p - vaddr]
  {
    var s :| s in steps && s.at < |fs| && e == StepEntry(g, fs, vaddr, s, o);
    StepExact(g, fs, vaddr, s, o, p);
    var k :| 0 <= k < |steps| && steps[k] == s;
    TilesBounds(g, steps, 0, m, k);
  }

  lemma EntryFound(g: Geometry, fs: seq<nat>, vaddr: nat, steps: seq<Step>, m: nat, o: Owner, p: nat)
    requires g.Valid() && Tiles(g, steps, 0, m)
    requires forall s :: s in steps ==> Sound(g, fs, vaddr, s)
    requires vaddr <= p < vaddr + m
    ensures Mapped(g, StepEntries(g, fs, vaddr, steps, o), p)
  {
    var k := TilesFind(g, steps, 0, m, p - vaddr);
    var s := steps[k];
    assert s in steps;
    StepCovers(g, vaddr, s, p);
    var e := StepEntry(g, fs, vaddr, s, o);
    assert e in StepEntries(g, fs, vaddr, steps, o) && Covers(g, e, p);
  }

  // ---------------------------------------------------------------------------------------------
  // Unmapping
  // ---------------------------------------------------------------------------------------------

  /** One of the unmapping writes of these steps clears the entry. */
  ghost predicate HitBy(g: Geometry, e: Entry, vaddr: nat, steps: seq<Step>, hpid: nat)
    requires g.Valid()
  {
    exists s :: s in steps && e.huge == s.huge && e.hpid == hpid && Covers(g, e, vaddr + s.at)
  }

  /** What is left in the TLBs after the unmapping writes of a list of steps. */
  ghost function Unmapped(g: Geometry, tlb: set<Entry>, vaddr: nat, steps: seq<Step>, hpid: nat): set<Entry>
    requires g.Valid()
  {
    set e | e in tlb && !HitBy(g, e, vaddr, steps, hpid)
  }

  /**
   Mapping a whole buffer and unmapping it again leaves no trace: both walks make the same choice
   at every page, so the unmapping writes alone clear every entry the map call created.
   */
  lemma MapThenUnmap(g: Geometry, tlb: set<Entry>, fs: seq<nat>, vaddr: nat, huge: bool, o: Owner)
    requires g.Valid()
    ensures var es := StepEntries(g, fs, vaddr, MapSteps(g, fs, vaddr, huge), o);
            var w := Walk(g, fs, vaddr, huge, 0);
            Unmapped(g, tlb + es, vaddr, w, o.hpid) == Unmapped(g, tlb, vaddr, w, o.hpid)
  {
    var w := Walk(g, fs, vaddr, huge, 0);
    var steps := MapSteps(g, fs, vaddr, huge);
    forall e | e in StepEntries(g, fs, vaddr, steps, o)
      ensures HitBy(g, e, vaddr, w, o.hpid)
    {
      var s :| s in steps && s.at < |fs| && e == StepEntry(g, fs, vaddr, s, o);
      assert s in w && Covers(g, e, vaddr + s.at);
    }
  }

  /** A group coalesced within a window is coalesced in the whole buffer. */
  lemma WindowGroup(g: Geometry, fs: seq<nat>, vaddr: nat, off: nat, n: nat, i: nat)
    requires g.Valid() && off + n <= |fs|
    ensures CanCoalesce(g, fs[off..off + n], vaddr + off, i)
       <==> CanCoalesce(g, fs, vaddr, off + i) && i + g.PagesInHuge() <= n
  {
    var w, h := fs[off..off + n], g.PagesInHuge();
    assert vaddr + off + i == vaddr + (off + i);
    if i + h <= n {
      assert forall j :: i <= j < i + h ==> w[j] == fs[off + j];
      if Contiguous(w, i, h) {
        forall j | off + i <= j < off + i + h
          ensures fs[j] == fs[off + i] + (j - (off + i)) * PAGE_SIZE
        {
          assert w[j - off] == fs[j];
        }
      }
    }
  }

  /**
   A window smaller than the buffer may be cut differently from the buffer. The buffer's unmapping
   writes miss an entry that was mapped through a window exactly when the entry is a small one
   whose page belongs to a group that coalesces in the whole buffer.
   */
  lemma WindowEntryMissed(g: Geometry, fs: seq<nat>, vaddr: nat, off: nat, n: nat, s: Step, o: Owner)
    requires g.Valid() && off + n <= |fs|
    requires s in MapSteps(g, fs[off..off + n], vaddr + off, false)
    ensures s.at < n
    ensures !HitBy(g, StepEntry(g, fs[off..off + n], vaddr + off, s, o), vaddr, Walk(g, fs, vaddr, false, 0), o.hpid)
       <==> !s.huge && InGroup(g, fs, vaddr, off + s.at)
  {
    hide Low, Shr, InGroup, CanCoalesce, Walk;
    var w := fs[off..off + n];
    NotInGroupAtStart(g, w, vaddr + off);
    NotInGroupAtStart(g, fs, vaddr);
    WalkIsChosen(g, w, vaddr + off, 0, s);
    var t := Step(off + s.at, s.huge);
    WalkIsChosen(g, fs, vaddr, 0, t);
    WindowGroup(g, fs, vaddr, off, n, s.at);
    var e := StepEntry(g, w, vaddr + off, s, o);
    assert vaddr + off + s.at == vaddr + (off + s.at);
    assert Covers(g, e, vaddr + t.at);
    if t !in Walk(g, fs, vaddr, false, 0) {
      forall t' | t' in Walk(g, fs, vaddr, false, 0) && t'.huge == s.huge
        ensures !Covers(g, e, vaddr + t'.at)
      {
        assert !s.huge;
        if Covers(g, e, vaddr + t'.at) { CoveredByStep(g, vaddr, t, vaddr + t'.at); }
      }
    }
  }

  /**
   Such an entry exists for every geometry with real large pages: map the first page of a buffer
   that coalesces, then unmap the buffer. Only the invalidation requests can clear it.
   */
  lemma WindowEntryMissedExample(g: Geometry, o: Owner) returns (fs: seq<nat>, e: Entry)
    requires g.Valid() && g.PagesInHuge() > 1
    ensures |fs| == g.PagesInHuge()
    ensures e in StepEntries(g, fs[0..1], 0, MapSteps(g, fs[0..1], 0, false), o)
    ensures !HitBy(g, e, 0, Walk(g, fs, 0, false, 0), o.hpid)
  {
    hide Low, Shr, Pow2;
    fs := seq(g.PagesInHuge(), i requires i >= 0 => i * PAGE_SIZE);
    LowSmall(0, g.large.pageShift);
    LowSmall(0, g.large.pageShift - PAGE_SHIFT);
    assert InGroup(g, fs, 0, 0);
    var s := Step(0, false);
    assert !CanCoalesce(g, fs[0..1], 0, 0);
    assert Walk(g, fs[0..1], 0, false, 0)[0] == s;
    assert s in MapSteps(g, fs[0..1], 0, false);
    WindowEntryMissed(g, fs, 0, 0, 1, s, o);
    e := StepEntry(g, fs[0..1], 0, s, o);
  }

  lemma NotInGroupAtStart(g: Geometry, fs: seq<nat>, vaddr: nat)
    requires g.Valid()
    ensures |fs| > 0 && g.large.Offset(vaddr + 0) != 0 ==> !InGroup(g, fs, vaddr, 0)
  {
  }

  /** One invalidation request: the page index it starts at and whether it carries the LAST marker. */
  datatype Invalidation = Invalidation(at: nat, last: bool)

  /** The requests for a buffer of `n` pages from page `i` on, `inc` pages each. */
  ghost function Invalidations(n: nat, inc: nat, i: nat): seq<Invalidation>
    requires inc > 0
    decreases n - i
  {
    if i >= n then [] else [Invalidation(i, i == n - inc)] + Invalidations(n, inc, i + inc)
  }

  /**
   The requests lie one behind the other, and the marker that makes the card raise the completion
   interrupt is on the final request and no other, if the request size divides the buffer.
   */
  lemma {:induction false} InvalidationsTile(n: nat, inc: nat, i: nat, q: nat, k: nat)
    requires inc > 0 && i + q * inc == n
    ensures |Invalidations(n, inc, i)| == q
    ensures k < q ==> Invalidations(n, inc, i)[k] == Invalidation(i + k * inc, k == q - 1)
    decreases q
  {
    if q > 0 {
      Distribute(q - 1, 1, inc);
      MulMono(1, q, inc);
      InvalidationsTile(n, inc, i + inc, q - 1, if k > 0 then k - 1 else 0);
      if 0 < k < q {
        Distribute(k - 1, 1, inc);
      } else if k == 0 && q > 1 {
        MulMono(2, q, inc);
      }
    }
  }

  /** If it does not, no request carries the marker and the driver would wait for ever. */
  lemma {:induction false} InvalidationsNeverLast(n: nat, inc: nat, i: nat, q: nat, r: nat, k: nat)
    requires inc > 0 && 0 < r < inc && i + q * inc + r == n
    requires k < |Invalidations(n, inc, i)|
    ensures !Invalidations(n, inc, i)[k].last
    decreases q
  {
    if k == 0 {
      if q > 0 { MulMono(1, q, inc); Distribute(q - 1, 1, inc); NoMultiple(q - 1, inc, r); }
    } else if q > 0 {
      Distribute(q - 1, 1, inc);
      InvalidationsNeverLast(n, inc, i + inc, q - 1, r, k - 1);
    }
  }

  lemma NoMultiple(q: nat, inc: nat, r: nat)
    requires 0 < r < inc
    ensures q * inc + r != 0
  {
    MulNonNeg(q, inc);
  }

  /** The unmapping writes of a buffer only remove entries that overlap it. */
  lemma HitOverlaps(g: Geometry, fs: seq<nat>, vaddr: nat, huge: bool, e: Entry, hpid: nat)
    requires g.Valid() && HitBy(g, e, vaddr, Walk(g, fs, vaddr, huge, 0), hpid)
    ensures e.hpid == hpid && Overlaps(g, e, vaddr, |fs|)
  {
    var s :| s in Walk(g, fs, vaddr, huge, 0) && e.huge == s.huge && e.hpid == hpid && Covers(g, e, vaddr + s.at);
    WalkInRange(g, fs, vaddr, huge, 0, s);
    OverlapsCovers(g, e, vaddr, |fs|, vaddr + s.at);
  }

  lemma {:induction false} WalkInRange(g: Geometry, fs: seq<nat>, vaddr: nat, huge: bool, i: nat, s: Step)
    requires g.Valid() && s in Walk(g, fs, vaddr, huge, i)
    ensures s.at < |fs|
    decreases |fs| - i
  {
    var h := huge || CanCoalesce(g, fs, vaddr, i);
    if s != Step(i, h) { WalkInRange(g, fs, vaddr, huge, i + g.Span(h), s); }
  }

  /** Overlapping a range is overlapping one of its two parts. */
  lemma OverlapsSplit(g: Geometry, e: Entry, page: nat, a: nat, b: nat)
    requires g.Valid()
    ensures Overlaps(g, e, page, a + b) <==> Overlaps(g, e, page, a) || Overlaps(g, e, page + a, b)
  {
    hide Low, Shr, Pow2;
    if Overlaps(g, e, page, a + b) {
      var p := OverlapWitness(g, e, page, a + b);
      if p < page + a { OverlapsCovers(g, e, page, a, p); } else { OverlapsCovers(g, e, page + a, b, p); }
    }
    if Overlaps(g, e, page, a) { var p := OverlapWitness(g, e, page, a); OverlapsCovers(g, e, page, a + b, p); }
    if Overlaps(g, e, page + a, b) { var p := OverlapWitness(g, e, page + a, b); OverlapsCovers(g, e, page, a + b, p); }
  }
}
