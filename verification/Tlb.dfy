/**
 The two hardware TLBs of a vFPGA as the driver drives them: the geometry read from the shell,
 the pair of 64-bit words written for one mapping or unmapping, and what the TLB controller
 does with such a pair.
 */
module Tlb {
  import opened Bits

  const PAGE_SHIFT := 12
  const PAGE_SIZE := 4096
  const TLB_VADDR_RANGE := 48
  const TLB_PADDR_RANGE := 44
  const PID_SIZE := 6
  const STRM_SIZE := 2

  /** Geometry of one TLB: how a page number splits into key and tag, how wide a frame number is. */
  datatype TlbMeta = TlbMeta(hugepage: bool, pageShift: nat, keySize: nat, tagSize: nat, phySize: nat)
  {
    predicate Valid() {
      && pageShift >= PAGE_SHIFT
      && pageShift + keySize + tagSize == TLB_VADDR_RANGE
      && pageShift + phySize == TLB_PADDR_RANGE
    }

    /** Regular (4 KB) pages covered by one page of this TLB. */
    function Span(): (r: nat)
      requires pageShift >= PAGE_SHIFT
      ensures r > 0
    {
      Pow2(pageShift - PAGE_SHIFT)
    }

    /** Number of the page of this TLB's size that holds a 4 KB page. */
    function Vpn(page: nat): nat
      requires pageShift >= PAGE_SHIFT
    {
      Shr(page, pageShift - PAGE_SHIFT)
    }

    /** Position of a 4 KB page inside the page of this TLB's size. */
    function Offset(page: nat): (r: nat)
      requires pageShift >= PAGE_SHIFT
      ensures r < Span()
    {
      Low(page, pageShift - PAGE_SHIFT)
    }

    /** Frame number of a byte address, cut to the width of the frame field. */
    function Pfn(paddr: nat): nat {
      Low(Shr(paddr, pageShift), phySize)
    }
  }

  datatype Geometry = Geometry(small: TlbMeta, large: TlbMeta)
  {
    predicate Valid() {
      && small.Valid() && large.Valid()
      && !small.hugepage && large.hugepage
      && small.pageShift == PAGE_SHIFT
    }

    function Meta(huge: bool): TlbMeta { if huge then large else small }

    function Span(huge: bool): (r: nat)
      requires Valid()
      ensures r > 0
    {
      Meta(huge).Span()
    }

    /** `n_pages_in_huge`. */
    function PagesInHuge(): (r: nat)
      requires Valid()
      ensures r > 0
    {
      large.Span()
    }
  }

  /** The two words of one AXI-Lite TLB write, and the fields the controller takes from them. */
  datatype Words = Words(w0: nat, w1: nat)
  datatype Fields = Fields(valid: bool, vpn: nat, ctid: nat, strm: nat, pfn: nat, hpid: nat)

  /** `create_tlb_mapping`: `page` counts 4 KB pages, `paddr` is in bytes. */
  function MapWords(m: TlbMeta, page: nat, paddr: nat, host: nat, ctid: nat, hpid: nat): Words
    requires m.Valid()
  {
    var vpn := m.Vpn(page);
    var key := Low(vpn, m.keySize);
    var tag := Shr(vpn, m.keySize);
    var pfn := m.Pfn(paddr);
    var at := m.keySize + m.tagSize;
    Words(Or(pfn, Shl(hpid, 32, 64)),
          Or(Or(Or(Or(Or(key, Shl(tag, m.keySize, 64)),
                      Shl(ctid, at, 64)),
                   Shl(host, at + PID_SIZE, 64)),
                Shl(1, at + PID_SIZE + STRM_SIZE, 64)),
             Shl(pfn, at + PID_SIZE + STRM_SIZE + 1, 64)))
  }

  /** `create_tlb_unmapping`: same key and tag, everything from the thread id upwards is zero. */
  function UnmapWords(m: TlbMeta, page: nat, hpid: nat): Words
    requires m.Valid()
  {
    var vpn := m.Vpn(page);
    var key := Low(vpn, m.keySize);
    var tag := Shr(vpn, m.keySize);
    Words(Shl(hpid, 32, 64), Or(key, Shl(tag, m.keySize, 64)))
  }

  /** The controller's view of a word pair (`tlb_controller`, data path). */
  function Decode(m: TlbMeta, w: Words): Fields
    requires m.Valid()
  {
    hide Low, Shr, Pow2;
    var at := m.keySize + m.tagSize;
    MulNonNeg(Field(w.w1, m.keySize, m.tagSize), Pow2(m.keySize));
    Fields(Field(w.w1, at + PID_SIZE + STRM_SIZE, 1) == 1,
           Field(w.w1, m.keySize, m.tagSize) * Pow2(m.keySize) + Field(w.w1, 0, m.keySize),
           Field(w.w1, at, PID_SIZE),
           Field(w.w1, at + PID_SIZE, STRM_SIZE),
           Field(w.w0, 0, m.phySize),
           Field(w.w0, 32, 32))
  }

  /** A page number, thread id, side and process id that fit the fields reserved for them. */
  predicate Fits(m: TlbMeta, page: nat, host: nat, ctid: nat, hpid: nat)
    requires m.Valid()
  {
    && m.Vpn(page) < Pow2(m.keySize + m.tagSize)
    && ctid < Pow2(PID_SIZE) && host < Pow2(STRM_SIZE) && hpid < Pow2(32)
  }

  /** Key and tag or-ed side by side. */
  function PageWord(vpn: nat, k: nat, bits: nat): nat {
    Or(Low(vpn, k), Shl(Shr(vpn, k), k, bits))
  }

  /** ... read back as the same page number. */
  lemma PageWordDecode(vpn: nat, k: nat, t: nat, bits: nat)
    requires vpn < Pow2(k + t) && k + t <= bits
    ensures PageWord(vpn, k, bits) < Pow2(k + t)
    ensures Field(PageWord(vpn, k, bits), k, t) == Shr(vpn, k)
    ensures Field(PageWord(vpn, k, bits), 0, k) == Low(vpn, k)
    ensures Shr(vpn, k) * Pow2(k) + Low(vpn, k) == vpn
  {
    ShrBound(vpn, k, t);
    ShrLow(vpn, k);
    var key, tag := Low(vpn, k), Shr(vpn, k);
    OrField(key, tag, k, t, bits);
    OrKeeps(key, tag, k, bits, 0, k);
    LowSmall(key, k);
  }

  /** Or-ing above bit `lo` leaves what the low `at <= lo` bits already say. */
  lemma OrLowKeeps(acc: nat, x: nat, lo: nat, bits: nat, at: nat, page: nat)
    requires acc < Pow2(lo) && at <= lo <= bits && Low(acc, at) == page
    ensures Low(Or(acc, Shl(x, lo, bits)), at) == page
  {
    OrLow(acc, x, lo, bits);
    LowLow(Or(acc, Shl(x, lo, bits)), lo, at);
  }

  /** Page, thread id and side of the mapping word. */
  function SideWord(page: nat, at: nat, ctid: nat, p: nat, host: nat, bits: nat): nat {
    Or(Or(page, Shl(ctid, at, bits)), Shl(host, at + p, bits))
  }

  lemma SideWordDecode(page: nat, at: nat, ctid: nat, p: nat, host: nat, s: nat, bits: nat)
    requires page < Pow2(at) && ctid < Pow2(p) && host < Pow2(s) && at + p + s <= bits
    ensures SideWord(page, at, ctid, p, host, bits) < Pow2(at + p + s)
    ensures Field(SideWord(page, at, ctid, p, host, bits), at, p) == ctid
    ensures Field(SideWord(page, at, ctid, p, host, bits), at + p, s) == host
  {
    var w := Or(page, Shl(ctid, at, bits));
    OrField(page, ctid, at, p, bits);
    OrField(w, host, at + p, s, bits);
    OrKeeps(w, host, at + p, bits, at, p);
  }

  lemma SideWordKeeps(page: nat, at: nat, ctid: nat, p: nat, host: nat, bits: nat)
    requires page < Pow2(at) && ctid < Pow2(p) && at + p <= bits
    ensures Low(SideWord(page, at, ctid, p, host, bits), at) == page
  {
    var w := Or(page, Shl(ctid, at, bits));
    OrField(page, ctid, at, p, bits);
    OrLow(page, ctid, at, bits);
    OrLowKeeps(w, host, at + p, bits, at, page);
  }

  /** Everything of the mapping word below the frame number's copy: the side word and the valid bit. */
  lemma HeaderWordDecode(side: nat, lo: nat, bits: nat)
    requires side < Pow2(lo) && lo + 1 <= bits
    ensures Or(side, Shl(1, lo, bits)) < Pow2(lo + 1)
    ensures Field(Or(side, Shl(1, lo, bits)), lo, 1) == 1
    ensures Low(Or(side, Shl(1, lo, bits)), lo) == side
  {
    OrField(side, 1, lo, 1, bits);
    OrLow(side, 1, lo, bits);
  }

  /** Word 0 holds the frame number below the process id. */
  lemma FrameWord(m: TlbMeta, pfn: nat, hpid: nat)
    requires m.Valid() && pfn < Pow2(m.phySize) && hpid < Pow2(32)
    ensures Field(Or(pfn, Shl(hpid, 32, 64)), 0, m.phySize) == pfn
    ensures Field(Or(pfn, Shl(hpid, 32, 64)), 32, 32) == hpid
  {
    Pow2Mono(m.phySize, 32);
    OrField(pfn, hpid, 32, 32, 64);
    OrKeeps(pfn, hpid, 32, 64, 0, m.phySize);
    LowSmall(pfn, m.phySize);
  }

  /**
   The packed mapping words decode to exactly what was asked for, although the frame number's
   second copy in word 1 overflows the word.
   */
  lemma MapWordsDecode(m: TlbMeta, page: nat, paddr: nat, host: nat, ctid: nat, hpid: nat)
    requires m.Valid() && Fits(m, page, host, ctid, hpid)
    ensures Decode(m, MapWords(m, page, paddr, host, ctid, hpid))
         == Fields(true, m.Vpn(page), ctid, host, m.Pfn(paddr), hpid)
  {
    hide Low, Shr, Pow2, Or;
    var k, t := m.keySize, m.tagSize;
    var at := k + t;
    FrameWord(m, m.Pfn(paddr), hpid);
    var pageWord := PageWord(m.Vpn(page), k, 64);
    PageWordDecode(m.Vpn(page), k, t, 64);
    var side := SideWord(pageWord, at, ctid, PID_SIZE, host, 64);
    SideWordDecode(pageWord, at, ctid, PID_SIZE, host, STRM_SIZE, 64);
    SideWordKeeps(pageWord, at, ctid, PID_SIZE, host, 64);
    var lo := at + PID_SIZE + STRM_SIZE;
    HeaderWordDecode(side, lo, 64);
    var header := Or(side, Shl(1, lo, 64));
    var w := Or(header, Shl(m.Pfn(paddr), lo + 1, 64));
    OrLow(header, m.Pfn(paddr), lo + 1, 64);
    OrKeeps(header, m.Pfn(paddr), lo + 1, 64, lo, 1);
    FieldThrough(w, header, side, lo, at, PID_SIZE);
    FieldThrough(w, header, side, lo, at + PID_SIZE, STRM_SIZE);
    FieldThrough(w, header, side, lo, k, t);
    FieldThrough(w, header, side, lo, 0, k);
    FieldLow(side, at, k, t);
    FieldLow(side, at, 0, k);
  }

  lemma FieldThrough(w: nat, header: nat, side: nat, lo: nat, l: nat, width: nat)
    requires Low(w, lo + 1) == header && Low(header, lo) == side && l + width <= lo
    ensures Field(w, l, width) == Field(side, l, width)
  {
    FieldLow(w, lo + 1, l, width);
    FieldLow(header, lo, l, width);
  }

  /** The unmapping words address the same page and process and carry a clear valid bit. */
  lemma UnmapWordsDecode(m: TlbMeta, page: nat, hpid: nat)
    requires m.Valid() && Fits(m, page, 0, 0, hpid)
    ensures var d := Decode(m, UnmapWords(m, page, hpid));
            !d.valid && d.vpn == m.Vpn(page) && d.hpid == hpid
  {
    var at := m.keySize + m.tagSize;
    var w := PageWord(m.Vpn(page), m.keySize, 64);
    PageWordDecode(m.Vpn(page), m.keySize, m.tagSize, 64);
    OrField(0, hpid, 32, 32, 64);
    assert Or(0, Shl(hpid, 32, 64)) == Shl(hpid, 32, 64);
    Pow2Mono(at, at + PID_SIZE + STRM_SIZE);
    LowSmall(w, at + PID_SIZE + STRM_SIZE);
  }

  /** An entry of either TLB. `vpn` and `pfn` count pages of the entry's own size. */
  datatype Entry = Entry(huge: bool, vpn: nat, ctid: nat, strm: nat, pfn: nat, hpid: nat)

  /** Does the entry translate this 4 KB page? */
  predicate Covers(g: Geometry, e: Entry, page: nat)
    requires g.Valid()
  {
    g.Meta(e.huge).Vpn(page) == e.vpn
  }

  /** Physical address of a covered 4 KB page: the frame's base followed by the offset inside it. */
  function Translate(g: Geometry, e: Entry, page: nat): nat
    requires g.Valid()
  {
    e.pfn * Pow2(g.Meta(e.huge).pageShift) + g.Meta(e.huge).Offset(page) * PAGE_SIZE
  }

  /**
   What the controller does with a write. A word pair with the valid bit inserts an entry;
   one without it clears every way of the addressed set whose tag and process id match.
   Which way an insertion replaces is a matter of eviction, which may happen to any entry at any time.
   */
  function Written(g: Geometry, tlb: set<Entry>, huge: bool, w: Words): set<Entry>
    requires g.Valid()
  {
    var d := Decode(g.Meta(huge), w);
    if d.valid then tlb + {Entry(huge, d.vpn, d.ctid, d.strm, d.pfn, d.hpid)}
    else set e | e in tlb && !(e.huge == huge && e.vpn == d.vpn && e.hpid == d.hpid)
  }

  /** `invalidate_tlb_entry` as documented: the process's entries overlapping the range are gone. */
  function Invalidated(g: Geometry, tlb: set<Entry>, page: nat, n: nat, hpid: nat): set<Entry>
    requires g.Valid()
  {
    set e | e in tlb && !(e.hpid == hpid && Overlaps(g, e, page, n))
  }

  predicate Overlaps(g: Geometry, e: Entry, page: nat, n: nat)
    requires g.Valid()
  {
    var s := g.Span(e.huge);
    n > 0 && e.vpn * s < page + n && page < (e.vpn + 1) * s
  }

  lemma OverlapsCovers(g: Geometry, e: Entry, page: nat, n: nat, p: nat)
    requires g.Valid() && Covers(g, e, p) && page <= p < page + n
    ensures Overlaps(g, e, page, n)
  {
    var s := g.Span(e.huge);
    ShrLow(p, g.Meta(e.huge).pageShift - PAGE_SHIFT);
    Distribute(e.vpn, 1, s);
  }

  /** An overlapping entry covers some page of the range. */
  lemma OverlapWitness(g: Geometry, e: Entry, page: nat, n: nat) returns (p: nat)
    requires g.Valid() && Overlaps(g, e, page, n)
    ensures page <= p < page + n && Covers(g, e, p)
  {
    var s := g.Span(e.huge);
    Distribute(e.vpn, 1, s);
    p := if page < e.vpn * s then e.vpn * s else page;
    Unique(p, g.Meta(e.huge).pageShift - PAGE_SHIFT, e.vpn, p - e.vpn * s);
  }

  /** The entry that one mapping call leaves in the TLB. */
  function MappedEntry(g: Geometry, huge: bool, page: nat, paddr: nat, host: nat, ctid: nat, hpid: nat): Entry
    requires g.Valid()
  {
    var m := g.Meta(huge);
    Entry(huge, m.Vpn(page), ctid, host, m.Pfn(paddr), hpid)
  }

  lemma MapWrites(g: Geometry, tlb: set<Entry>, huge: bool, page: nat, paddr: nat, host: nat, ctid: nat, hpid: nat)
    requires g.Valid() && Fits(g.Meta(huge), page, host, ctid, hpid)
    ensures Written(g, tlb, huge, MapWords(g.Meta(huge), page, paddr, host, ctid, hpid))
         == tlb + {MappedEntry(g, huge, page, paddr, host, ctid, hpid)}
  {
    MapWordsDecode(g.Meta(huge), page, paddr, host, ctid, hpid);
  }

  lemma UnmapWrites(g: Geometry, tlb: set<Entry>, huge: bool, page: nat, hpid: nat)
    requires g.Valid() && Fits(g.Meta(huge), page, 0, 0, hpid)
    ensures Written(g, tlb, huge, UnmapWords(g.Meta(huge), page, hpid))
         == set e | e in tlb && !(e.huge == huge && e.hpid == hpid && Covers(g, e, page))
  {
    UnmapWordsDecode(g.Meta(huge), page, hpid);
  }

  /**
   The 44-bit frame field is exact for precisely the addresses that are page aligned and in range:
   only then does the entry translate its first page to the address it was given.
   */
  lemma FrameExact(m: TlbMeta, paddr: nat)
    requires m.Valid()
    ensures m.Pfn(paddr) * Pow2(m.pageShift) == paddr
       <==> Low(paddr, m.pageShift) == 0 && paddr < Pow2(TLB_PADDR_RANGE)
  {
    var s, q := m.pageShift, Shr(paddr, m.pageShift);
    assert s + m.phySize == TLB_PADDR_RANGE;
    ShrLow(paddr, s);
    if Low(paddr, s) == 0 && paddr < Pow2(s + m.phySize) {
      ShrBound(paddr, s, m.phySize);
      LowSmall(q, m.phySize);
    }
    if m.Pfn(paddr) * Pow2(s) == paddr {
      ShlShr(m.Pfn(paddr), s);
      AppendBound(0, m.Pfn(paddr), s, m.phySize);
    }
  }
}
