/**
 The loops that offload, sync or release the buffers of a range. They look a page up in its hash
 chain and take every buffer of that chain that holds the page, moving the page on as they go. The
 results hold for every hash function and every order of the chains.
 */
module RangeMoves {
  import opened BufferTable

  /** A thread's buffers and the function that files them: a chain holds those of equal hash. */
  datatype Table = Table(bs: seq<Buffer>, ctid: nat, hash: nat -> nat)
  {
    predicate InChain(i: nat, bucket: nat)
      requires i < |bs|
    {
      bs[i].ctid == ctid && hash(bs[i].vaddr) == bucket
    }

    /** Where one pass over a chain leaves the page it looks for. */
    ghost function Pass(bucket: nat, i: nat, v: nat): (r: nat)
      requires i <= |bs|
      ensures r >= v
      decreases |bs| - i
    {
      if i == |bs| then v
      else if InChain(i, bucket) && bs[i].Contains(v) then Pass(bucket, i + 1, v + bs[i].Pages())
      else Pass(bucket, i + 1, v)
    }

    /** The buffers that the pass takes, in order. */
    ghost function Taken(bucket: nat, i: nat, v: nat): seq<nat>
      requires i <= |bs|
      decreases |bs| - i
    {
      if i == |bs| then []
      else if InChain(i, bucket) && bs[i].Contains(v) then [i] + Taken(bucket, i + 1, v + bs[i].Pages())
      else Taken(bucket, i + 1, v)
    }

    /** The outer loop comes to an end: every pass it starts moves the page on. */
    ghost predicate Ends(v: nat, last: nat)
      decreases last + 1 - v
    {
      v > last || (Pass(hash(v), 0, v) > v && Ends(Pass(hash(v), 0, v), last))
    }

    /** All buffers the loop takes. */
    ghost function Loop(v: nat, last: nat): seq<nat>
      requires Ends(v, last)
      decreases last + 1 - v
    {
      if v > last then [] else Taken(hash(v), 0, v) + Loop(Pass(hash(v), 0, v), last)
    }
  }

  /** A pass takes something and moves on exactly when the chain has a buffer that holds the page. */
  lemma {:induction false} PassProgress(t: Table, bucket: nat, i: nat, v: nat)
    requires Disjoint(t.bs, t.ctid) && i <= |t.bs|
    ensures t.Pass(bucket, i, v) > v <==> exists k :: i <= k < |t.bs| && t.InChain(k, bucket) && t.bs[k].Contains(v)
    ensures t.Taken(bucket, i, v) == [] <==> t.Pass(bucket, i, v) == v
    decreases |t.bs| - i
  {
    if i < |t.bs| && !(t.InChain(i, bucket) && t.bs[i].Contains(v)) { PassProgress(t, bucket, i + 1, v); }
  }

  /** Taken buffers are positions of the table. */
  ghost predicate InTable(moves: seq<nat>, n: nat) {
    forall k :: 0 <= k < |moves| ==> moves[k] < n
  }

  lemma {:induction false} TakenInTable(t: Table, bucket: nat, i: nat, v: nat)
    requires i <= |t.bs|
    ensures InTable(t.Taken(bucket, i, v), |t.bs|)
    decreases |t.bs| - i
  {
    if i < |t.bs| {
      TakenInTable(t, bucket, i + 1, if t.InChain(i, bucket) && t.bs[i].Contains(v) then v + t.bs[i].Pages() else v);
    }
  }

  lemma {:induction false} LoopInTable(t: Table, v: nat, last: nat)
    requires t.Ends(v, last)
    ensures InTable(t.Loop(v, last), |t.bs|)
    decreases last + 1 - v
  {
    if v <= last {
      LoopInTable(t, t.Pass(t.hash(v), 0, v), last);
      TakenInTable(t, t.hash(v), 0, v);
    }
  }

  /** Positions of the table from `i` on, in its order, of buffers that end in `(v, end]`. */
  ghost predicate Between(t: Table, taken: seq<nat>, i: nat, v: nat, end: nat) {
    && (forall k :: 0 <= k < |taken| ==> i <= taken[k] < |t.bs| && v < t.bs[taken[k]].End() <= end)
    && (forall k, l :: 0 <= k < l < |taken| ==> taken[k] < taken[l])
  }

  lemma {:induction false} TakenBetween(t: Table, bucket: nat, i: nat, v: nat)
    requires i <= |t.bs|
    ensures Between(t, t.Taken(bucket, i, v), i, v, t.Pass(bucket, i, v))
    decreases |t.bs| - i
  {
    if i < |t.bs| && t.InChain(i, bucket) && t.bs[i].Contains(v) {
      var next := v + t.bs[i].Pages();
      TakenBetween(t, bucket, i + 1, next);
      var rest := t.Taken(bucket, i + 1, next);
      assert t.Taken(bucket, i, v) == [i] + rest;
    } else if i < |t.bs| {
      TakenBetween(t, bucket, i + 1, v);
      var rest := t.Taken(bucket, i + 1, v);
      assert t.Taken(bucket, i, v) == rest && Between(t, rest, i, v, t.Pass(bucket, i + 1, v));
    }
  }

  /** Positions of the table, none twice, of buffers that end behind `v`. */
  ghost predicate Once(t: Table, moves: seq<nat>, v: nat) {
    && (forall k :: 0 <= k < |moves| ==> moves[k] < |t.bs| && v < t.bs[moves[k]].End())
    && (forall k, l :: 0 <= k < l < |moves| ==> moves[k] != moves[l])
  }

  /** No buffer is taken twice in one request. */
  lemma {:induction false} LoopOnce(t: Table, v: nat, last: nat)
    requires t.Ends(v, last)
    ensures Once(t, t.Loop(v, last), v)
    decreases last + 1 - v
  {
    if v <= last {
      var next := t.Pass(t.hash(v), 0, v);
      var taken, rest := t.Taken(t.hash(v), 0, v), t.Loop(next, last);
      TakenBetween(t, t.hash(v), 0, v);
      LoopOnce(t, next, last);
      OnceJoin(t, taken, v, next, rest);
    }
  }

  lemma OnceJoin(t: Table, taken: seq<nat>, v: nat, next: nat, rest: seq<nat>)
    requires Between(t, taken, 0, v, next) && v <= next && Once(t, rest, next)
    ensures Once(t, taken + rest, v)
  {
  }

  // ---------------------------------------------------------------------------------------------
  // Ranges tiled by buffers
  // ---------------------------------------------------------------------------------------------

  /** Positions of buffers of the thread that follow one another without a gap. */
  ghost predicate Adjacent(t: Table, tile: seq<nat>) {
    && |tile| > 0
    && (forall k :: 0 <= k < |tile| ==> tile[k] < |t.bs| && t.bs[tile[k]].ctid == t.ctid)
    && (forall k :: 0 < k < |tile| ==> t.bs[tile[k]].vaddr == t.bs[tile[k - 1]].End())
  }

  /** First page of the k-th buffer of a tiling, or the page behind the tiling. */
  ghost function Edge(t: Table, tile: seq<nat>, k: nat): nat
    requires Adjacent(t, tile) && k <= |tile|
  {
    if k < |tile| then t.bs[tile[k]].vaddr else t.bs[tile[k - 1]].End()
  }

  lemma {:induction false} EdgeMono(t: Table, tile: seq<nat>, k: nat, l: nat)
    requires Adjacent(t, tile) && k <= l <= |tile|
    ensures Edge(t, tile, k) <= Edge(t, tile, l)
  {
    if k < l {
      EdgeMono(t, tile, k, l - 1);
      assert Edge(t, tile, l) == t.bs[tile[l - 1]].End();
    }
  }

  /** The page is at the start of the k-th buffer, or somewhere behind the tiling. */
  ghost predicate AtEdge(t: Table, tile: seq<nat>, v: nat, k: nat)
    requires Adjacent(t, tile)
  {
    k <= |tile| && (v == Edge(t, tile, k) || (k == |tile| && v >= Edge(t, tile, k)))
  }

  /**
   A pass that starts at an edge stops at an edge and takes every buffer in between; if it looks in
   the chain of the buffer it starts at, it takes that one at least.
   */
  lemma {:induction false} PassOverTile(t: Table, tile: seq<nat>, bucket: nat, i: nat, v: nat, k: nat) returns (l: nat)
    requires Disjoint(t.bs, t.ctid) && Adjacent(t, tile) && i <= |t.bs| && AtEdge(t, tile, v, k)
    ensures k <= l && AtEdge(t, tile, t.Pass(bucket, i, v), l)
    ensures forall m :: k <= m < l ==> tile[m] in t.Taken(bucket, i, v)
    ensures k < |tile| && i <= tile[k] && t.hash(v) == bucket ==> k < l
    decreases |t.bs| - i
  {
    if i == |t.bs| {
      l := k;
    } else if t.InChain(i, bucket) && t.bs[i].Contains(v) {
      if k < |tile| {
        assert i == tile[k];
        assert v + t.bs[i].Pages() == Edge(t, tile, k + 1);
        l := PassOverTile(t, tile, bucket, i + 1, v + t.bs[i].Pages(), k + 1);
      } else {
        l := PassOverTile(t, tile, bucket, i + 1, v + t.bs[i].Pages(), k);
      }
    } else {
      l := PassOverTile(t, tile, bucket, i + 1, v, k);
    }
  }

  /** From an edge the loop comes to an end and takes every buffer of the tiling from there on. */
  lemma {:induction false} LoopOverTile(t: Table, tile: seq<nat>, v: nat, last: nat, k: nat)
    requires Disjoint(t.bs, t.ctid) && Adjacent(t, tile) && AtEdge(t, tile, v, k) && last < Edge(t, tile, |tile|)
    ensures t.Ends(v, last)
    ensures forall m :: k <= m < |tile| && t.bs[tile[m]].vaddr <= last ==> tile[m] in t.Loop(v, last)
    decreases |tile| - k
  {
    if v <= last {
      assert k < |tile|;
      var l := PassOverTile(t, tile, t.hash(v), 0, v, k);
      EdgeMono(t, tile, k + 1, l);
      LoopOverTile(t, tile, t.Pass(t.hash(v), 0, v), last, l);
    } else {
      forall m | k <= m < |tile| ensures t.bs[tile[m]].vaddr > last { EdgeMono(t, tile, k, m); }
    }
  }

  /**
   A range that starts at a buffer and is tiled by adjacent buffers: the loop comes to an end and
   takes every buffer of the range, whatever the hash function and the order of the chains.
   */
  lemma TiledRange(t: Table, tile: seq<nat>, v: nat, last: nat)
    requires Disjoint(t.bs, t.ctid) && Adjacent(t, tile)
    requires v == t.bs[tile[0]].vaddr && last < t.bs[tile[|tile| - 1]].End()
    ensures t.Ends(v, last)
    ensures forall m :: 0 <= m < |tile| && t.bs[tile[m]].vaddr <= last ==> tile[m] in t.Loop(v, last)
  {
    LoopOverTile(t, tile, v, last, 0);
  }

  /** Before it reaches the buffer that holds its page, a pass takes nothing. */
  lemma {:induction false} UntilBuffer(t: Table, a: nat, bucket: nat, i: nat, v: nat)
    requires Disjoint(t.bs, t.ctid) && i <= a < |t.bs| && t.InChain(a, bucket) && t.bs[a].Contains(v)
    ensures t.Taken(bucket, i, v) == [a] + t.Taken(bucket, a + 1, v + t.bs[a].Pages())
    ensures t.Pass(bucket, i, v) == t.Pass(bucket, a + 1, v + t.bs[a].Pages())
    decreases a - i
  {
    if i < a { UntilBuffer(t, a, bucket, i + 1, v); }
  }

  /**
   A request inside one buffer: the loop ends exactly when the first page asked for is in the chain
   of the buffer's start. It then takes that buffer alone exactly when no buffer behind it in the
   chain holds the page that lies the buffer's size further on.
   */
  lemma OneBufferRange(t: Table, a: nat, v: nat, last: nat)
    requires Disjoint(t.bs, t.ctid) && a < |t.bs| && t.bs[a].ctid == t.ctid
    requires t.bs[a].vaddr <= v <= last < t.bs[a].End()
    ensures t.Ends(v, last) <==> t.hash(v) == t.hash(t.bs[a].vaddr)
    ensures t.Ends(v, last) ==>
              (t.Loop(v, last) == [a] <==>
               !exists d :: a < d < |t.bs| && t.InChain(d, t.hash(v)) && t.bs[d].Contains(v + t.bs[a].Pages()))
  {
    var bucket, next := t.hash(v), v + t.bs[a].Pages();
    PassProgress(t, bucket, 0, v);
    if bucket == t.hash(t.bs[a].vaddr) {
      UntilBuffer(t, a, bucket, 0, v);
      PassProgress(t, bucket, a + 1, next);
      assert t.Loop(v, last) == t.Taken(bucket, 0, v) + t.Loop(t.Pass(bucket, 0, v), last);
      assert t.Loop(t.Pass(bucket, 0, v), last) == [];
      assert t.Loop(v, last) == [a] + t.Taken(bucket, a + 1, next);
    } else {
      forall k | 0 <= k < |t.bs| && t.InChain(k, bucket) ensures !t.bs[k].Contains(v) {
        assert k < a ==> Apart(t.bs[k], t.bs[a]);
        assert a < k ==> Apart(t.bs[a], t.bs[k]);
      }
    }
  }

  // ---------------------------------------------------------------------------------------------
  // Requests on which the loop does not end
  // ---------------------------------------------------------------------------------------------

  /** No buffer of the page's own chain has it strictly inside. */
  ghost predicate NotInside(t: Table, bucket: nat, v: nat) {
    forall i :: 0 <= i < |t.bs| && t.InChain(i, bucket) && t.bs[i].Contains(v) ==> t.bs[i].vaddr == v
  }

  /** Adjacent buffers from `v` to `end`. */
  ghost predicate Spans(t: Table, tile: seq<nat>, v: nat, end: nat) {
    Adjacent(t, tile) && t.bs[tile[0]].vaddr == v && t.bs[tile[|tile| - 1]].End() == end
  }

  /** Adjacent buffers from `v` on reach beyond `last`. */
  ghost predicate Tiled(t: Table, v: nat, last: nat) {
    exists tile :: Adjacent(t, tile) && t.bs[tile[0]].vaddr == v && last < t.bs[tile[|tile| - 1]].End()
  }

  /** Where a buffer ends, another one starts or there is a gap. */
  lemma EndNotInside(t: Table, k: nat, bucket: nat)
    requires Disjoint(t.bs, t.ctid) && k < |t.bs| && t.bs[k].ctid == t.ctid && t.bs[k].Pages() > 0
    ensures NotInside(t, bucket, t.bs[k].End())
  {
    var end := t.bs[k].End();
    forall i | 0 <= i < |t.bs| && t.InChain(i, bucket) && t.bs[i].Contains(end) ensures t.bs[i].vaddr == end {
      assert i < k ==> Apart(t.bs[i], t.bs[k]);
      assert k < i ==> Apart(t.bs[k], t.bs[i]);
    }
  }

  lemma SpansJoin(t: Table, a: seq<nat>, b: seq<nat>, v: nat, mid: nat, end: nat)
    requires Spans(t, a, v, mid) && Spans(t, b, mid, end)
    ensures Spans(t, a + b, v, end)
  {
    var tile := a + b;
    forall k | 0 < k < |tile| ensures t.bs[tile[k]].vaddr == t.bs[tile[k - 1]].End() {
      if k < |a| { assert tile[k - 1] == a[k - 1]; }
    }
  }

  /** A pass that starts at a buffer's start or in a gap takes adjacent buffers and stops behind them. */
  lemma {:induction false} PassTile(t: Table, bucket: nat, i: nat, v: nat) returns (tile: seq<nat>)
    requires Disjoint(t.bs, t.ctid) && i <= |t.bs| && NotInside(t, bucket, v)
    ensures if t.Pass(bucket, i, v) == v then tile == [] else Spans(t, tile, v, t.Pass(bucket, i, v))
    ensures tile != [] ==> t.bs[tile[|tile| - 1]].Pages() > 0
    decreases |t.bs| - i
  {
    if i == |t.bs| {
      tile := [];
    } else if t.InChain(i, bucket) && t.bs[i].Contains(v) {
      EndNotInside(t, i, bucket);
      var rest := PassTile(t, bucket, i + 1, t.bs[i].End());
      tile := [i] + rest;
      assert Spans(t, [i], v, t.bs[i].End());
      if rest != [] { SpansJoin(t, [i], rest, v, t.bs[i].End(), t.Pass(bucket, i, v)); }
    } else {
      tile := PassTile(t, bucket, i + 1, v);
    }
  }

  lemma {:induction false} EndsTiled(t: Table, v: nat, last: nat) returns (tile: seq<nat>, end: nat)
    requires Disjoint(t.bs, t.ctid) && NotInside(t, t.hash(v), v) && v <= last && t.Ends(v, last)
    ensures Spans(t, tile, v, end) && last < end
    decreases last + 1 - v
  {
    var next := t.Pass(t.hash(v), 0, v);
    tile := PassTile(t, t.hash(v), 0, v);
    end := next;
    if next <= last {
      EndNotInside(t, tile[|tile| - 1], t.hash(next));
      var rest: seq<nat>;
      rest, end := EndsTiled(t, next, last);
      SpansJoin(t, tile, rest, v, next, end);
      tile := tile + rest;
    }
  }

  /**
   For every hash, the loop ends exactly when the range is empty or tiled from its start by adjacent
   buffers. All this asks is that no buffer of the start page's own chain has that page strictly inside.
   */
  lemma EndsExact(t: Table, v: nat, last: nat)
    requires Disjoint(t.bs, t.ctid) && NotInside(t, t.hash(v), v)
    ensures t.Ends(v, last) <==> v > last || Tiled(t, v, last)
  {
    if v <= last && t.Ends(v, last) {
      var tile, end := EndsTiled(t, v, last);
    } else if v <= last && Tiled(t, v, last) {
      var tile :| Adjacent(t, tile) && t.bs[tile[0]].vaddr == v && last < t.bs[tile[|tile| - 1]].End();
      TiledRange(t, tile, v, last);
    }
  }

  /** From inside a buffer of its own chain the loop jumps by that buffer's size and ends in a gap. */
  lemma InsideExample()
    ensures var t := Table([Buffer(1, [1, 2], [1, 2], false, 0, HOST_ACCESS)], 0, _ => 0);
            Disjoint(t.bs, 0) && t.Pass(0, 0, 2) == 4 && t.Ends(2, 3) && !Tiled(t, 2, 3)
  {
    var t := Table([Buffer(1, [1, 2], [1, 2], false, 0, HOST_ACCESS)], 0, _ => 0);
    assert t.Pass(0, 1, 4) == 4 && t.Pass(0, 0, 2) == 4;
    assert t.Ends(4, 3);
  }

  /** A request that starts inside a buffer, under a hash of its own, goes round for ever. */
  lemma EndlessExample()
    ensures var t := Table([Buffer(1, [1, 2], [1, 2], false, 0, HOST_ACCESS)], 0, p => p);
            Disjoint(t.bs, 0) && t.Pass(t.hash(2), 0, 2) == 2 && !t.Ends(2, 2)
  {
    var t := Table([Buffer(1, [1, 2], [1, 2], false, 0, HOST_ACCESS)], 0, p => p);
    assert t.Pass(2, 1, 2) == 2 && !t.InChain(0, 2);
  }

  // ---------------------------------------------------------------------------------------------
  // Releasing
  // ---------------------------------------------------------------------------------------------

  /** The release loop's test; unlike the move loops' it includes the page behind the buffer. */
  predicate Releases(b: Buffer, ctid: nat, hash: nat -> nat, v: nat) {
    b.ctid == ctid && hash(b.vaddr) == hash(v) && b.vaddr <= v <= b.End()
  }

  /** The buffer the release loop stops at, or the length of the table if it finds none. */
  function Found(bs: seq<Buffer>, ctid: nat, hash: nat -> nat, v: nat): (f: nat)
    ensures f <= |bs|
    ensures f < |bs| ==> Releases(bs[f], ctid, hash, v)
    ensures forall i :: 0 <= i < f ==> !Releases(bs[i], ctid, hash, v)
  {
    if bs == [] then 0
    else if Releases(bs[0], ctid, hash, v) then 0
    else 1 + Found(bs[1..], ctid, hash, v)
  }

  function Without(bs: seq<Buffer>, i: nat): seq<Buffer>
    requires i < |bs|
  {
    bs[..i] + bs[i + 1..]
  }

  /**
   The buffers the release loop leaves. Unlinking an entry ends the iteration over its chain, so one
   buffer goes at most: the first of the chain that passes the test.
   */
  function Kept(bs: seq<Buffer>, ctid: nat, hash: nat -> nat, v: nat): seq<Buffer> {
    var f := Found(bs, ctid, hash, v);
    if f < |bs| then Without(bs, f) else bs
  }

  /** A buffer of the same chain that ends where buffer `a` starts and stands in front of it. */
  ghost predicate Shadows(bs: seq<Buffer>, ctid: nat, hash: nat -> nat, d: nat, a: nat)
    requires a < |bs|
  {
    && d < a && bs[d].ctid == ctid && hash(bs[d].vaddr) == hash(bs[a].vaddr) && bs[d].End() == bs[a].vaddr
  }

  /** Which buffers pass the test for the start of buffer `a`: itself, and one that ends there. */
  lemma ReleasesAtStart(bs: seq<Buffer>, ctid: nat, hash: nat -> nat, a: nat, d: nat)
    requires Disjoint(bs, ctid) && a < |bs| && bs[a].ctid == ctid && d < |bs|
    ensures Releases(bs[d], ctid, hash, bs[a].vaddr)
       <==> d == a || (bs[d].ctid == ctid && hash(bs[d].vaddr) == hash(bs[a].vaddr) && bs[d].End() == bs[a].vaddr)
  {
    if d < a { assert bs[d].ctid == ctid ==> Apart(bs[d], bs[a]); }
    if a < d { assert bs[d].ctid == ctid ==> Apart(bs[a], bs[d]); }
  }

  /**
   Releasing a buffer by its start address removes that buffer and no other exactly when no buffer
   of its chain that ends there stands in front of it; otherwise exactly that neighbour is removed
   and the buffer itself stays.
   */
  lemma ReleaseExact(bs: seq<Buffer>, ctid: nat, hash: nat -> nat, a: nat)
    requires Disjoint(bs, ctid) && a < |bs| && bs[a].ctid == ctid
    ensures var left := Kept(bs, ctid, hash, bs[a].vaddr);
            && (left == Without(bs, a) <==> !exists d: nat :: Shadows(bs, ctid, hash, d, a))
            && forall d: nat :: Shadows(bs, ctid, hash, d, a) ==> left == Without(bs, d) && left != Without(bs, a)
  {
    var v := bs[a].vaddr;
    var f := Found(bs, ctid, hash, v);
    ReleasesAtStart(bs, ctid, hash, a, a);
    ReleasesAtStart(bs, ctid, hash, a, f);
    if f == a {
      forall d: nat | d < a ensures !Shadows(bs, ctid, hash, d, a) { ReleasesAtStart(bs, ctid, hash, a, d); }
    } else {
      assert Shadows(bs, ctid, hash, f, a);
      assert Without(bs, f)[f] == bs[f + 1] && Without(bs, a)[f] == bs[f];
      assert bs[f + 1].ctid == ctid ==> Apart(bs[f], bs[f + 1]);
      forall d | f < d < a && bs[d].ctid == ctid ensures bs[d].End() != bs[f].End() {
        assert Apart(bs[f], bs[d]);
      }
      forall d: nat | Shadows(bs, ctid, hash, d, a) ensures d == f { ReleasesAtStart(bs, ctid, hash, a, d); }
    }
  }

  /** Releasing by a page inside a buffer removes that buffer if the page is in its chain, and else nothing. */
  lemma ReleaseInside(bs: seq<Buffer>, ctid: nat, hash: nat -> nat, a: nat, v: nat)
    requires Disjoint(bs, ctid) && a < |bs| && bs[a].ctid == ctid && bs[a].vaddr < v < bs[a].End()
    ensures Kept(bs, ctid, hash, v) == if hash(v) == hash(bs[a].vaddr) then Without(bs, a) else bs
  {
    forall d | 0 <= d < |bs| && d != a && bs[d].ctid == ctid ensures !(bs[d].vaddr <= v <= bs[d].End()) {
      if d < a { assert Apart(bs[d], bs[a]); } else { assert Apart(bs[a], bs[d]); }
    }
  }

  /** Releasing a page that no buffer of the thread holds or ends before changes nothing. */
  lemma ReleaseElsewhere(bs: seq<Buffer>, ctid: nat, hash: nat -> nat, v: nat)
    requires forall i :: 0 <= i < |bs| && bs[i].ctid == ctid ==> v < bs[i].vaddr || bs[i].End() < v
    ensures Kept(bs, ctid, hash, v) == bs
  {
  }

  /** Two buffers of one page side by side in one chain. Moving the first takes the second as well. */
  lemma NeighbourExample()
    ensures var a, b := Buffer(1, [1], [1], false, 0, HOST_ACCESS), Buffer(2, [2], [2], false, 0, HOST_ACCESS);
            var t := Table([a, b], 0, _ => 0);
            Disjoint(t.bs, 0) && t.Ends(1, 1) && t.Loop(1, 1) == [0, 1]
  {
    var a, b := Buffer(1, [1], [1], false, 0, HOST_ACCESS), Buffer(2, [2], [2], false, 0, HOST_ACCESS);
    var t := Table([a, b], 0, _ => 0);
    assert t.Pass(0, 2, 3) == 3 && t.Pass(0, 1, 2) == 3 && t.Pass(0, 0, 1) == 3;
    assert t.Taken(0, 2, 3) == [] && t.Taken(0, 1, 2) == [1] && t.Taken(0, 0, 1) == [0, 1];
    assert t.Ends(3, 1) && t.Loop(3, 1) == [];
  }

  /** Releasing the second removes the first if that stands in front, and the second if it does not. */
  lemma WrongReleaseExample()
    ensures var a, b := Buffer(1, [1], [1], false, 0, HOST_ACCESS), Buffer(2, [2], [2], false, 0, HOST_ACCESS);
            Kept([a, b], 0, _ => 0, 2) == [b] && Kept([b, a], 0, _ => 0, 2) == [a]
  {
    var a, b := Buffer(1, [1], [1], false, 0, HOST_ACCESS), Buffer(2, [2], [2], false, 0, HOST_ACCESS);
    assert Releases(a, 0, _ => 0, 2) && Releases(b, 0, _ => 0, 2);
  }
}
