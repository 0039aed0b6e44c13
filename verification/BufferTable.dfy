/**
 The table of user buffers of one Coyote thread: the window of pages a fault asks for, the search
 for a buffer that already holds it, and the disjointness that makes the search order irrelevant.
 */
module BufferTable {
  import opened Bits
  import opened Tlb
  import opened Wrappers

  const CARD_ACCESS: nat := 0
  const HOST_ACCESS: nat := 1

  /** `user_pages`: addresses are 4 KB page numbers, frames are byte addresses on either side. */
  datatype Buffer = Buffer(vaddr: nat, hpages: seq<nat>, cpages: seq<nat>, huge: bool, ctid: nat, host: nat)
  {
    function Pages(): nat { |hpages| }

    function End(): nat { vaddr + Pages() }

    predicate Contains(page: nat) { vaddr <= page < End() }

    /** The page array the `host` flag selects. */
    function Frames(): seq<nat> { if host == HOST_ACCESS then hpages else cpages }
  }

  /** A page-aligned fault window (`pf_aligned_desc`). */
  datatype Window = Window(vaddr: nat, n: nat)
  {
    function End(): nat { vaddr + n }
  }

  // ---------------------------------------------------------------------------------------------
  // The window of a fault
  // ---------------------------------------------------------------------------------------------

  /** Pages of the fault's own size that `len` bytes at `addr` touch; none or one if `len` is zero. */
  function PagesTouched(m: TlbMeta, addr: nat, len: nat): (n: nat)
  {
    if addr + len == 0 then 0
    else
      var n := Shr(addr + len - 1, m.pageShift) - Shr(addr, m.pageShift) + 1;
      if n < 0 then 0 else n
  }

  /** The window of a fault, in 4 KB pages; the page count is kept in 32 bits. */
  function FaultWindow(g: Geometry, huge: bool, addr: nat, len: nat): Window
    requires g.Valid()
  {
    var m := g.Meta(huge);
    Window(Shr(addr, m.pageShift) * m.Span(), Low(PagesTouched(m, addr, len) * m.Span(), 32))
  }

  /** Every page between the first and the last is touched by some byte. */
  lemma TouchingByte(addr: nat, last: nat, s: nat, q: nat) returns (a: nat)
    requires addr <= last && Shr(addr, s) <= q <= Shr(last, s)
    ensures addr <= a <= last && Shr(a, s) == q
  {
    if q == Shr(addr, s) {
      a := addr;
    } else {
      a := q * Pow2(s);
      ShlShr(q, s);
      ShrLow(last, s);
      MulMono(q, Shr(last, s), Pow2(s));
      if a < addr { ShrMono(a, addr, s); }
    }
  }

  /** The window holds exactly the pages that the requested bytes touch. */
  lemma FaultWindowExact(g: Geometry, huge: bool, addr: nat, len: nat, page: nat)
    requires g.Valid() && len > 0
    requires PagesTouched(g.Meta(huge), addr, len) * g.Span(huge) < Pow2(32)
    ensures var w := FaultWindow(g, huge, addr, len);
            w.vaddr <= page < w.End() <==> Touched(g.Meta(huge), addr, len, page)
  {
    hide Low, Shr, Pow2;
    var m := g.Meta(huge);
    var last := addr + len - 1;
    var lo, hi, q := Shr(addr, m.pageShift), Shr(last, m.pageShift), m.Vpn(page);
    ShrMono(addr, last, m.pageShift);
    assert PagesTouched(m, addr, len) == hi - lo + 1;
    LowSmall((hi - lo + 1) * m.Span(), 32);
    WindowPages(m, lo, hi - lo + 1, page);
    if lo <= q <= hi {
      var a := TouchingByte(addr, last, m.pageShift, q);
    }
    forall a: nat | addr <= a <= last && Shr(a, m.pageShift) == q
      ensures lo <= q <= hi
    {
      ShrMono(addr, a, m.pageShift);
      ShrMono(a, last, m.pageShift);
    }
  }

  /** A fault of no bytes asks for no page at the start of a page, and for that page elsewhere. */
  lemma ZeroLength(g: Geometry, huge: bool, addr: nat)
    requires g.Valid() && g.Span(huge) < Pow2(32)
    ensures var m := g.Meta(huge);
            FaultWindow(g, huge, addr, 0).n == if Low(addr, m.pageShift) == 0 then 0 else g.Span(huge)
  {
    hide Low, Shr, Pow2;
    var m := g.Meta(huge);
    var q, r := Shr(addr, m.pageShift), Low(addr, m.pageShift);
    ShrLow(addr, m.pageShift);
    LowSmall(0, 32);
    LowSmall(g.Span(huge), 32);
    if r > 0 {
      MulNonNeg(q, Pow2(m.pageShift));
      Unique(addr - 1, m.pageShift, q, r - 1);
    } else if addr > 0 {
      Distribute(q - 1, 1, Pow2(m.pageShift));
      Unique(addr - 1, m.pageShift, q - 1, Pow2(m.pageShift) - 1);
    }
  }

  ghost predicate Touched(m: TlbMeta, addr: nat, len: nat, page: nat)
    requires m.pageShift >= PAGE_SHIFT
  {
    exists a: nat :: addr <= a < addr + len && Shr(a, m.pageShift) == m.Vpn(page)
  }

  lemma WindowPages(m: TlbMeta, lo: nat, n: nat, page: nat)
    requires m.pageShift >= PAGE_SHIFT
    ensures lo * m.Span() <= page < lo * m.Span() + n * m.Span() <==> lo <= m.Vpn(page) < lo + n
  {
    var s := m.pageShift - PAGE_SHIFT;
    ShrLow(page, s);
    Scaled(Shr(page, s), Low(page, s), lo, Pow2(s));
    Scaled(Shr(page, s), Low(page, s), lo + n, Pow2(s));
    Distribute(lo, n, Pow2(s));
  }

  /** Comparing pages is comparing the groups they are in. */
  lemma Scaled(q: nat, r: nat, k: nat, d: nat)
    requires r < d
    ensures k * d <= q * d + r <==> k <= q
  {
    if k <= q {
      MulMono(k, q, d);
    } else {
      MulMono(q + 1, k, d);
      Distribute(q, 1, d);
    }
  }

  // ---------------------------------------------------------------------------------------------
  // Searching the table
  // ---------------------------------------------------------------------------------------------

  ghost predicate Apart(a: Buffer, b: Buffer) {
    a.End() <= b.vaddr || b.End() <= a.vaddr
  }

  /** The buffers of one thread hold non-overlapping, non-empty page ranges. */
  ghost predicate Disjoint(bs: seq<Buffer>, ctid: nat) {
    && (forall i :: 0 <= i < |bs| && bs[i].ctid == ctid ==> bs[i].Pages() > 0)
    && (forall i, j :: 0 <= i < j < |bs| && bs[i].ctid == ctid && bs[j].ctid == ctid ==> Apart(bs[i], bs[j]))
  }

  ghost function Members(bs: seq<Buffer>, ctid: nat): set<Buffer> {
    set b | b in bs && b.ctid == ctid
  }

  /** What the search is to return, stated on the set of buffers and not on an order of them. */
  ghost predicate Answer(bs: set<Buffer>, w: Window, hit: Option<Buffer>, n: nat) {
    match hit
    case Some(b) =>
      b in bs && b.Contains(w.vaddr) && n == (if w.End() > b.End() then b.End() - w.vaddr else w.n)
    case None =>
      && (forall b :: b in bs ==> !b.Contains(w.vaddr))
      && n <= w.n && (w.n > 0 ==> n > 0)
      && (forall b :: b in bs ==> b.End() <= w.vaddr || w.vaddr + n <= b.vaddr)
      && (n < w.n ==> exists b :: b in bs && b.vaddr == w.vaddr + n)
  }

  /** `map_present`, over any order in which the thread's hash table is iterated. */
  method MapPresent(bs: seq<Buffer>, ctid: nat, w: Window) returns (hit: Option<nat>, n: nat)
    requires Disjoint(bs, ctid)
    ensures hit.Some? ==> hit.value < |bs| && bs[hit.value].ctid == ctid
    ensures Answer(Members(bs, ctid), w, if hit.Some? then Some(bs[hit.value]) else None, n)
  {
    n := w.n;
    for i := 0 to |bs|
      invariant n <= w.n && (w.n > 0 ==> n > 0)
      invariant forall j :: 0 <= j < i && bs[j].ctid == ctid ==> !bs[j].Contains(w.vaddr)
      invariant forall j :: 0 <= j < i && bs[j].ctid == ctid ==> bs[j].End() <= w.vaddr || w.vaddr + n <= bs[j].vaddr
      invariant n < w.n ==> exists j :: 0 <= j < i && bs[j].ctid == ctid && bs[j].vaddr == w.vaddr + n
    {
      var b := bs[i];
      if b.ctid == ctid {
        if w.vaddr >= b.vaddr && w.vaddr < b.vaddr + b.Pages() {
          assert n < w.n ==> exists j :: 0 <= j < i && Apart(bs[j], b) && bs[j].vaddr == w.vaddr + n;
          if w.vaddr + n > b.vaddr + b.Pages() {
            n := b.vaddr + b.Pages() - w.vaddr;
          }
          return Some(i), n;
        } else if w.vaddr < b.vaddr && w.vaddr + n > b.vaddr {
          n := b.vaddr - w.vaddr;
        }
      }
    }
    hit := None;
    assert n < w.n ==> exists b :: b in Members(bs, ctid) && b.vaddr == w.vaddr + n by {
      if n < w.n {
        var j :| 0 <= j < |bs| && bs[j].ctid == ctid && bs[j].vaddr == w.vaddr + n;
        assert bs[j] in Members(bs, ctid);
      }
    }
  }

  /** The answer is unique, so it cannot depend on the order of iteration. */
  lemma AnswerUnique(bs: seq<Buffer>, bs': seq<Buffer>, ctid: nat, w: Window,
                     h: Option<Buffer>, n: nat, h': Option<Buffer>, n': nat)
    requires Disjoint(bs, ctid) && Members(bs, ctid) == Members(bs', ctid)
    requires Answer(Members(bs, ctid), w, h, n) && Answer(Members(bs', ctid), w, h', n')
    ensures h == h' && n == n'
  {
    if h.Some? && h'.Some? {
      assert h'.value in Members(bs, ctid);
      var i :| 0 <= i < |bs| && bs[i] == h.value;
      var j :| 0 <= j < |bs| && bs[j] == h'.value;
      assert i == j;
    }
  }

  /**
   Which pages of the fault's window are left after the search: on a hit those of the buffer, on a
   miss those in front of the first page that a buffer holds.
   */
  lemma AnswerPages(bs: seq<Buffer>, ctid: nat, w: Window, hit: Option<Buffer>, n: nat, p: nat)
    requires Disjoint(bs, ctid) && Answer(Members(bs, ctid), w, hit, n)
    ensures hit.Some? ==> (w.vaddr <= p < w.vaddr + n <==> w.vaddr <= p < w.End() && hit.value.Contains(p))
    ensures hit.None? ==>
              (w.vaddr <= p < w.vaddr + n <==>
               && w.vaddr <= p < w.End()
               && forall q: nat, i :: w.vaddr <= q <= p && 0 <= i < |bs| && bs[i].ctid == ctid ==> !bs[i].Contains(q))
  {
    if hit.None? {
      if w.vaddr <= p < w.vaddr + n {
        forall q: nat, i | w.vaddr <= q <= p && 0 <= i < |bs| && bs[i].ctid == ctid ensures !bs[i].Contains(q) {
          assert bs[i] in Members(bs, ctid);
        }
      } else if w.vaddr <= p < w.End() {
        var b :| b in Members(bs, ctid) && b.vaddr == w.vaddr + n;
        var i :| 0 <= i < |bs| && bs[i] == b;
        assert bs[i].Contains(w.vaddr + n);
      }
    }
  }

  /** A miss's clipped window can be added to the table: it stays disjoint, whoever its neighbours are. */
  lemma MissKeepsDisjoint(bs: seq<Buffer>, ctid: nat, w: Window, n: nat, b: Buffer)
    requires Disjoint(bs, ctid) && Answer(Members(bs, ctid), w, None, n)
    requires n > 0 && b.vaddr == w.vaddr && b.Pages() == n && b.ctid == ctid
    ensures Disjoint([b] + bs, ctid)
    ensures forall i :: 0 <= i < |bs| && bs[i].ctid == ctid ==> Apart(b, bs[i])
  {
    forall i | 0 <= i < |bs| && bs[i].ctid == ctid ensures Apart(b, bs[i]) {
      assert bs[i] in Members(bs, ctid);
    }
    var bs' := [b] + bs;
    forall i, j | 0 <= i < j < |bs'| && bs'[i].ctid == ctid && bs'[j].ctid == ctid
      ensures Apart(bs'[i], bs'[j])
    {
      assert bs'[j] == bs[j - 1];
      if i > 0 { assert bs'[i] == bs[i - 1]; }
    }
  }
}
