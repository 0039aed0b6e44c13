/**
 The memory of the simulated host: a sorted list of allocation addresses with one byte array per
 allocation, searched by bisection. It stands for one flat memory of bytes.
 */
module SimMemory {
  import opened LittleEndian
  import opened Wrappers

  datatype Tracker = Tracker(addresses: seq<int>, allocations: map<int, Bytes>)

  /** The contents of the i-th allocation. */
  function Block(m: Tracker, i: nat): Bytes
    requires i < |m.addresses|
  {
    if m.addresses[i] in m.allocations then m.allocations[m.addresses[i]] else []
  }

  /** First address behind the i-th allocation. */
  function End(m: Tracker, i: nat): int
    requires i < |m.addresses|
  {
    m.addresses[i] + |Block(m, i)|
  }

  /** No allocation is empty. */
  ghost predicate Filled(m: Tracker) {
    forall i :: 0 <= i < |m.addresses| ==> |Block(m, i)| > 0
  }

  /** Allocations ascend and neither overlap nor touch. */
  ghost predicate Apart(m: Tracker) {
    forall i, j :: 0 <= i < j < |m.addresses| ==> End(m, i) < m.addresses[j]
  }

  ghost predicate Wf(m: Tracker) { Filled(m) && Apart(m) }

  // ---------------------------------------------------------------------------------------------
  // Looking up and allocating
  // ---------------------------------------------------------------------------------------------

  /** `bisect_right`: how many addresses are at most `x`, in an ascending list. */
  function BisectRight(s: seq<int>, x: int): (p: nat)
    ensures p <= |s|
    ensures p < |s| ==> s[p] > x
    ensures p > 0 ==> exists i :: p - 1 <= i < |s| && s[i] <= x
    ensures forall i :: p <= i < |s| ==> s[i] > x
    ensures p > 0 ==> s[p - 1] <= x
  {
    if s == [] then 0
    else if s[|s| - 1] <= x then |s|
    else BisectRight(s[..|s| - 1], x)
  }

  /** Position of the allocation that contains an address or ends right before it. */
  function Neighbor(m: Tracker, v: int): Option<nat> {
    var p := BisectRight(m.addresses, v);
    if p > 0 && v <= End(m, p - 1) then Some(p - 1) else None
  }

  /** Position of the allocation that contains a whole range. */
  function Containing(m: Tracker, v: int, size: int): Option<nat> {
    var i := Neighbor(m, v);
    if i.Some? && i.value < |m.addresses| && End(m, i.value) - 1 >= v + size - 1 then i else None
  }

  function Zeros(n: nat): Bytes { seq(n, _ => 0) }

  /** `_add_memory_allocation`: extend the neighbour, or insert a new allocation in order. */
  function Added(m: Tracker, v: int, size: nat): Tracker {
    var i := Neighbor(m, v);
    if i.Some? && i.value < |m.addresses| then
      var increase := (v + size - 1) - (End(m, i.value) - 1);
      if increase > 0 then
        m.(allocations := m.allocations[m.addresses[i.value] := Block(m, i.value) + Zeros(increase)])
      else m
    else
      var p := BisectRight(m.addresses, v);
      Tracker(m.addresses[..p] + [v] + m.addresses[p..], m.allocations[v := Zeros(size)])
  }

  function NextFree(m: Tracker): int {
    if m.addresses == [] then 0 else End(m, |m.addresses| - 1)
  }

  // ---------------------------------------------------------------------------------------------
  // The flat memory
  // ---------------------------------------------------------------------------------------------

  ghost predicate In(m: Tracker, i: nat, a: int) {
    i < |m.addresses| && m.addresses[i] <= a < End(m, i)
  }

  /** The byte at an address, if the address is allocated. */
  ghost function Flat(m: Tracker, a: int): Option<Byte> {
    if exists i: nat :: In(m, i, a) then
      var i: nat :| In(m, i, a);
      Some(Block(m, i)[a - m.addresses[i]])
    else None
  }

  lemma OneHolder(m: Tracker, i: nat, j: nat, a: int)
    requires Wf(m) && In(m, i, a) && In(m, j, a)
    ensures i == j
  {
  }

  lemma FlatAt(m: Tracker, i: nat, a: int)
    requires Wf(m) && In(m, i, a)
    ensures Flat(m, a) == Some(Block(m, i)[a - m.addresses[i]])
  {
    var j: nat :| In(m, j, a) && Flat(m, a) == Some(Block(m, j)[a - m.addresses[j]]);
    OneHolder(m, i, j, a);
  }

  /** The neighbour is the only allocation that can hold the address or what follows it at once. */
  lemma NeighborOf(m: Tracker, v: int, i: nat)
    requires Wf(m) && i < |m.addresses| && m.addresses[i] <= v <= End(m, i)
    ensures Neighbor(m, v) == Some(i)
  {
    var p := BisectRight(m.addresses, v);
    assert p > i;
  }

  /** The address right behind an allocation is free. */
  lemma NothingBehind(m: Tracker, i: nat)
    requires Wf(m) && i < |m.addresses|
    ensures Flat(m, End(m, i)).None?
  {
    forall j: nat ensures !In(m, j, End(m, i)) {
      if j < i { assert End(m, j) < m.addresses[i]; }
    }
  }

  lemma ContainingBounds(m: Tracker, v: int, size: nat)
    requires Wf(m) && Containing(m, v, size).Some?
    ensures var i := Containing(m, v, size).value;
            i < |m.addresses| && m.addresses[i] in m.allocations && m.addresses[i] <= v && v + size <= End(m, i)
  {
    var i := Containing(m, v, size).value;
    assert |Block(m, i)| > 0;
  }

  /** The look-up finds a range of at least one byte exactly when all its bytes are allocated. */
  lemma ContainingIff(m: Tracker, v: int, size: nat)
    requires Wf(m) && size > 0
    ensures Containing(m, v, size).Some? <==> forall a :: v <= a < v + size ==> Flat(m, a).Some?
  {
    if Containing(m, v, size).Some? {
      var i := Containing(m, v, size).value;
      forall a | v <= a < v + size ensures Flat(m, a).Some? { FlatAt(m, i, a); }
    } else if i: nat :| In(m, i, v) {
      NeighborOf(m, v, i);
      NothingBehind(m, i);
      assert v <= End(m, i) < v + size;
    } else {
      assert Flat(m, v).None?;
    }
  }

  // ---------------------------------------------------------------------------------------------
  // Allocating
  // ---------------------------------------------------------------------------------------------

  /** No other allocation starts behind the address and up to the end of the requested range. */
  ghost predicate Room(m: Tracker, v: int, size: nat) {
    forall i :: 0 <= i < |m.addresses| ==> !(v < m.addresses[i] <= v + size)
  }

  /** Addresses ascend strictly. */
  lemma Ascending(m: Tracker, i: nat, j: nat)
    requires Wf(m) && i < j < |m.addresses|
    ensures m.addresses[i] < m.addresses[j]
  {
    assert End(m, i) < m.addresses[j];
  }

  lemma Distinct(m: Tracker, i: nat)
    requires Wf(m) && i < |m.addresses|
    ensures forall k :: 0 <= k < |m.addresses| && k != i ==> m.addresses[k] != m.addresses[i]
  {
    forall k | 0 <= k < |m.addresses| && k != i ensures m.addresses[k] != m.addresses[i] {
      if k < i { Ascending(m, k, i); } else { Ascending(m, i, k); }
    }
  }

  /** How the tracker looks when the neighbour is extended. */
  ghost predicate Extended(m: Tracker, i: nat, end: int, m': Tracker)
    requires i < |m.addresses|
  {
    && m'.addresses == m.addresses
    && (forall k :: 0 <= k < |m.addresses| && k != i ==> Block(m', k) == Block(m, k))
    && Block(m', i) == Block(m, i) + Zeros(if end > End(m, i) then end - End(m, i) else 0)
  }

  lemma ExtendedShape(m: Tracker, v: int, size: nat)
    requires Wf(m) && size > 0 && Neighbor(m, v).Some?
    ensures var i := Neighbor(m, v).value;
            i < |m.addresses| && m.addresses[i] <= v <= End(m, i) && Extended(m, i, v + size, Added(m, v, size))
  {
    var i := Neighbor(m, v).value;
    Distinct(m, i);
    assert Block(m, i) + Zeros(0) == Block(m, i);
  }

  lemma ExtendedWf(m: Tracker, i: nat, v: int, size: nat, m': Tracker)
    requires Wf(m) && size > 0 && i < |m.addresses| && m.addresses[i] <= v <= End(m, i)
    requires Extended(m, i, v + size, m')
    ensures Wf(m') <==> Room(m, v, size)
  {
    if Room(m, v, size) {
      forall j, k | 0 <= j < k < |m.addresses| ensures End(m', j) < m'.addresses[k] {
        assert End(m, j) < m.addresses[k];
      }
    } else {
      var j :| 0 <= j < |m.addresses| && v < m.addresses[j] <= v + size;
      if j < i { Ascending(m, j, i); }
      assert i < j && End(m', i) >= m'.addresses[j];
    }
  }

  /** How the tracker looks when an allocation is inserted. */
  ghost predicate Inserted(m: Tracker, p: nat, v: int, size: nat, m': Tracker)
    requires p <= |m.addresses|
  {
    && m'.addresses == m.addresses[..p] + [v] + m.addresses[p..]
    && Block(m', p) == Zeros(size)
    && (forall k :: 0 <= k < p ==> Block(m', k) == Block(m, k))
    && (forall k :: p <= k < |m.addresses| ==> Block(m', k + 1) == Block(m, k))
  }

  /** Where an allocation is inserted: behind everything before it, in front of everything else. */
  ghost predicate Between(m: Tracker, p: nat, v: int) {
    && p <= |m.addresses|
    && (forall k :: 0 <= k < p ==> End(m, k) < v)
    && (forall k :: p <= k < |m.addresses| ==> v < m.addresses[k])
  }

  lemma NoNeighbor(m: Tracker, v: int)
    requires Wf(m) && Neighbor(m, v).None?
    ensures Between(m, BisectRight(m.addresses, v), v)
  {
    var p := BisectRight(m.addresses, v);
    forall k | 0 <= k < p ensures End(m, k) < v {
      if k < p - 1 { assert End(m, k) < m.addresses[p - 1]; }
    }
  }

  lemma InsertedShape(m: Tracker, v: int, size: nat)
    requires Wf(m) && size > 0 && Neighbor(m, v).None?
    ensures var p := BisectRight(m.addresses, v);
            Between(m, p, v) && Inserted(m, p, v, size, Added(m, v, size))
  {
    hide Wf;
    var p := BisectRight(m.addresses, v);
    NoNeighbor(m, v);
    var m' := Added(m, v, size);
    forall k | 0 <= k < p ensures m.addresses[k] != v && Block(m', k) == Block(m, k) {
      assert End(m, k) < v;
      assert m'.addresses[k] == m.addresses[k];
    }
    forall k | p <= k < |m.addresses| ensures Block(m', k + 1) == Block(m, k) {
      assert m'.addresses[k + 1] == m.addresses[k];
    }
  }

  lemma InsertedWf(m: Tracker, p: nat, v: int, size: nat, m': Tracker)
    requires Wf(m) && size > 0 && Between(m, p, v) && Inserted(m, p, v, size, m')
    ensures Wf(m') <==> Room(m, v, size)
  {
    var n := |m.addresses|;
    forall i | 0 <= i < n + 1 ensures |Block(m', i)| > 0 {
      if i > p { assert Block(m', i - 1 + 1) == Block(m, i - 1); }
    }
    if Room(m, v, size) {
      InsertedApart(m, p, v, size, m');
    } else {
      var j :| 0 <= j < n && v < m.addresses[j] <= v + size;
      assert m.addresses[j] <= End(m, j);
      assert End(m', p) >= m'.addresses[j + 1];
    }
  }

  lemma InsertedApart(m: Tracker, p: nat, v: int, size: nat, m': Tracker)
    requires Apart(m) && Between(m, p, v) && Inserted(m, p, v, size, m') && Room(m, v, size)
    ensures Apart(m')
  {
    forall j, k | 0 <= j < k < |m'.addresses| ensures End(m', j) < m'.addresses[k] {
      var j', k' := if j < p then j else j - 1, if k < p then k else k - 1;
      assert j != p ==> End(m', j) == End(m, j');
      assert k != p ==> m'.addresses[k] == m.addresses[k'];
      if j != p && k != p { assert End(m, j') < m.addresses[k']; }
    }
  }

  /** An allocation keeps the tracker in order exactly when there is room for it. */
  lemma AddedWf(m: Tracker, v: int, size: nat)
    requires Wf(m) && size > 0
    ensures Wf(Added(m, v, size)) <==> Room(m, v, size)
  {
    var m' := Added(m, v, size);
    if Neighbor(m, v).Some? {
      ExtendedShape(m, v, size);
      ExtendedWf(m, Neighbor(m, v).value, v, size, m');
    } else {
      InsertedShape(m, v, size);
      InsertedWf(m, BisectRight(m.addresses, v), v, size, m');
    }
  }

  /** The flat memory after an allocation: old bytes stay, new ones are zero. */
  ghost function FlatAdded(m: Tracker, v: int, size: nat, a: int): Option<Byte> {
    if Flat(m, a).Some? then Flat(m, a) else if v <= a < v + size then Some(0) else None
  }

  lemma AddedFlat(m: Tracker, v: int, size: nat, a: int)
    requires Wf(m) && size > 0 && Room(m, v, size)
    ensures Flat(Added(m, v, size), a) == FlatAdded(m, v, size, a)
  {
    var m' := Added(m, v, size);
    if Neighbor(m, v).Some? {
      ExtendedShape(m, v, size);
      ExtendedFlat(m, Neighbor(m, v).value, v, size, m', a);
    } else {
      InsertedShape(m, v, size);
      InsertedFlat(m, BisectRight(m.addresses, v), v, size, m', a);
    }
  }

  lemma ExtendedFlat(m: Tracker, i: nat, v: int, size: nat, m': Tracker, a: int)
    requires Wf(m) && size > 0 && Room(m, v, size) && i < |m.addresses| && m.addresses[i] <= v <= End(m, i)
    requires Extended(m, i, v + size, m')
    ensures Flat(m', a) == FlatAdded(m, v, size, a)
  {
    ExtendedWf(m, i, v, size, m');
    hide Wf, Room;
    if k: nat :| In(m, k, a) {
      FlatAt(m, k, a);
      FlatAt(m', k, a);
    } else {
      assert Flat(m, a).None? && !In(m, i, a);
      if v <= a < v + size {
        FlatAt(m', i, a);
      } else {
        forall k: nat ensures !In(m', k, a) { assert !In(m, k, a); }
      }
    }
  }

  /** The holders before and after an insertion. */
  lemma InsertedIn(m: Tracker, p: nat, v: int, size: nat, m': Tracker, k: nat, a: int)
    requires Between(m, p, v) && Inserted(m, p, v, size, m') && k < |m.addresses|
    ensures var k' := if k < p then k else k + 1;
            && k' < |m'.addresses| && m'.addresses[k'] == m.addresses[k] && Block(m', k') == Block(m, k)
            && (In(m', k', a) <==> In(m, k, a))
  {
  }

  /** The holder of a new byte. */
  lemma InsertedNew(m: Tracker, p: nat, v: int, size: nat, m': Tracker, a: int)
    requires Between(m, p, v) && Inserted(m, p, v, size, m')
    ensures |m'.addresses| == |m.addresses| + 1 && (In(m', p, a) <==> v <= a < v + size)
    ensures In(m', p, a) ==> Block(m', p)[a - m'.addresses[p]] == 0
  {
  }

  lemma InsertedFlat(m: Tracker, p: nat, v: int, size: nat, m': Tracker, a: int)
    requires Wf(m) && size > 0 && Room(m, v, size) && Between(m, p, v) && Inserted(m, p, v, size, m')
    ensures Flat(m', a) == FlatAdded(m, v, size, a)
  {
    InsertedWf(m, p, v, size, m');
    InsertedNew(m, p, v, size, m', a);
    assert p <= |m.addresses|;
    hide Wf, Room, Between, Inserted;
    forall k: nat | k < |m.addresses|
      ensures In(m', if k < p then k else k + 1, a) <==> In(m, k, a)
    {
      InsertedIn(m, p, v, size, m', k, a);
    }
    if k: nat :| In(m, k, a) {
      FlatAt(m, k, a);
      FlatAt(m', if k < p then k else k + 1, a);
      InsertedIn(m, p, v, size, m', k, a);
    } else {
      assert Flat(m, a).None?;
      if v <= a < v + size {
        FlatAt(m', p, a);
      } else {
        forall k: nat ensures !In(m', k, a) {
          if k < p { assert !In(m, k, a); } else if k > p { assert !In(m, k - 1, a); }
        }
      }
    }
  }

  /** Everything allocated lies below the next free address. */
  lemma NextFreeAbove(m: Tracker, a: int)
    requires Wf(m) && a >= NextFree(m)
    ensures Flat(m, a).None? && Room(m, a, 0) && forall i :: 0 <= i < |m.addresses| ==> m.addresses[i] < NextFree(m)
  {
    var n := |m.addresses|;
    forall i: nat | i < n ensures End(m, i) <= NextFree(m) && m.addresses[i] < NextFree(m) {
      if i < n - 1 { assert End(m, i) < m.addresses[n - 1]; }
    }
    assert forall i: nat :: !In(m, i, a);
  }

  // ---------------------------------------------------------------------------------------------
  // Reading and writing
  // ---------------------------------------------------------------------------------------------

  function Spliced(b: Bytes, at: nat, data: Bytes): Bytes
    requires at + |data| <= |b|
  {
    b[..at] + data + b[at + |data|..]
  }

  /** A write into the allocation that holds the range. */
  function Stored(m: Tracker, i: nat, v: int, data: Bytes): Tracker
    requires i < |m.addresses| && m.addresses[i] <= v && v + |data| <= End(m, i)
  {
    m.(allocations := m.allocations[m.addresses[i] := Spliced(Block(m, i), v - m.addresses[i], data)])
  }

  lemma StoredShape(m: Tracker, i: nat, v: int, data: Bytes)
    requires Wf(m) && i < |m.addresses| && m.addresses[i] <= v && v + |data| <= End(m, i)
    ensures var m' := Stored(m, i, v, data);
            && m'.addresses == m.addresses
            && (forall k :: 0 <= k < |m.addresses| && k != i ==> Block(m', k) == Block(m, k))
            && Block(m', i) == Spliced(Block(m, i), v - m.addresses[i], data)
            && (forall k :: 0 <= k < |m.addresses| ==> End(m', k) == End(m, k))
    ensures Wf(Stored(m, i, v, data))
  {
    Distinct(m, i);
    var m' := Stored(m, i, v, data);
    forall j, k | 0 <= j < k < |m.addresses| ensures End(m', j) < m'.addresses[k] {
      assert End(m, j) < m.addresses[k];
    }
  }

  lemma StoredFlat(m: Tracker, i: nat, v: int, data: Bytes, a: int)
    requires Wf(m) && i < |m.addresses| && m.addresses[i] <= v && v + |data| <= End(m, i)
    ensures Flat(Stored(m, i, v, data), a) == if v <= a < v + |data| then Some(data[a - v]) else Flat(m, a)
  {
    hide Wf, Stored;
    var m' := Stored(m, i, v, data);
    StoredShape(m, i, v, data);
    if k: nat :| In(m, k, a) {
      FlatAt(m, k, a);
      FlatAt(m', k, a);
      if v <= a < v + |data| { OneHolder(m, i, k, a); }
    } else {
      assert Flat(m, a).None? && !In(m, i, a);
      forall k: nat ensures !In(m', k, a) { assert !In(m, k, a); }
    }
  }

  /** Whether there is room can be seen on the flat memory: no allocated stretch begins in the way. */
  lemma RoomFlat(m: Tracker, v: int, size: nat)
    requires Wf(m)
    ensures Room(m, v, size) <==> forall a :: v < a <= v + size && Flat(m, a).Some? ==> Flat(m, a - 1).Some?
  {
    if Room(m, v, size) {
      forall a | v < a <= v + size && Flat(m, a).Some? ensures Flat(m, a - 1).Some? {
        var k: nat :| In(m, k, a);
        assert In(m, k, a - 1);
      }
    } else {
      var j :| 0 <= j < |m.addresses| && v < m.addresses[j] <= v + size;
      var s := m.addresses[j];
      var last := s - 1;
      assert In(m, j, s);
      forall k: nat ensures !In(m, k, last) {
        if k < j { assert End(m, k) < m.addresses[j]; } else if k > j && k < |m.addresses| { Ascending(m, j, k); }
      }
      assert Flat(m, s).Some? && Flat(m, last).None?;
    }
  }

  /** Python's `b[lo:hi]` for a start that is not negative. */
  function Slice(b: Bytes, lo: nat, hi: int): (s: Bytes)
    ensures lo <= hi <= |b| ==> s == b[lo..hi]
    ensures 0 <= hi <= lo ==> s == []
  {
    var end := if hi < 0 then hi + |b| else hi;
    var stop := if end > |b| then |b| else end;
    if lo < stop then b[lo..stop] else []
  }

  /** A slice that ends before its start is empty, unless the end is negative and so counts from the back. */
  lemma SliceBackwards(b: Bytes, lo: nat, hi: int)
    requires hi < lo
    ensures Slice(b, lo, hi) == if hi < 0 && lo <= |b| + hi then b[lo..|b| + hi] else []
  {
  }

  /** Reading: the bytes of the range, or nothing where the code's assertion stops the caller. */
  function Loaded(m: Tracker, v: int, size: nat): Option<Bytes> {
    var i := Containing(m, v, size);
    if i.Some? && i.value < |m.addresses| && m.addresses[i.value] <= v then
      var at := v - m.addresses[i.value];
      if at + size <= |Block(m, i.value)| then Some(Block(m, i.value)[at..at + size]) else None
    else None
  }

  /** A read returns the bytes of the flat memory, exactly when all of them are allocated. */
  lemma LoadedFlat(m: Tracker, v: int, size: nat)
    requires Wf(m) && size > 0
    ensures Loaded(m, v, size).Some? <==> forall a :: v <= a < v + size ==> Flat(m, a).Some?
    ensures Loaded(m, v, size).Some? ==>
              |Loaded(m, v, size).value| == size
              && forall k :: 0 <= k < size ==> Flat(m, v + k) == Some(Loaded(m, v, size).value[k])
  {
    ContainingIff(m, v, size);
    if Loaded(m, v, size).Some? {
      var i := Containing(m, v, size).value;
      forall k | 0 <= k < size ensures Flat(m, v + k) == Some(Loaded(m, v, size).value[k]) {
        FlatAt(m, i, v + k);
      }
    }
  }

  /** What the bound check and the slice of a read amount to, for every size. */
  lemma ReadRange(m: Tracker, v: int, size: int)
    requires Wf(m)
    ensures var i := Containing(m, v, size);
            && (size > 0 ==> (i.Some? <==> forall a :: v <= a < v + size ==> Flat(m, a).Some?))
            && (size <= 0 ==> i == Neighbor(m, v))
            && (i.Some? ==>
                  i.value < |m.addresses| && m.addresses[i.value] in m.allocations && m.addresses[i.value] <= v)
            && (i.Some? && size >= 0 ==>
                  var s := Slice(Block(m, i.value), v - m.addresses[i.value], v - m.addresses[i.value] + size);
                  |s| == size && forall k :: 0 <= k < size ==> Flat(m, v + k) == Some(s[k]))
  {
    var i := Containing(m, v, size);
    if size > 0 {
      hide Flat;
      LoadedFlat(m, v, size);
    }
    if i.Some? {
      assert |Block(m, i.value)| > 0;
    }
  }

  /** Writing: an unallocated range leaves the memory as it is. */
  function Written(m: Tracker, v: int, data: Bytes): Tracker {
    var i := Containing(m, v, |data|);
    if i.Some? && i.value < |m.addresses| && m.addresses[i.value] <= v && v + |data| <= End(m, i.value)
    then Stored(m, i.value, v, data) else m
  }

  lemma WrittenFlat(m: Tracker, v: int, data: Bytes, a: int)
    requires Wf(m)
    ensures Wf(Written(m, v, data))
    ensures Flat(Written(m, v, data), a)
         == if v <= a < v + |data| && (forall b :: v <= b < v + |data| ==> Flat(m, b).Some?)
            then Some(data[a - v]) else Flat(m, a)
  {
    hide Wf, Flat, Stored;
    var i := Containing(m, v, |data|);
    if |data| > 0 { ContainingIff(m, v, |data|); }
    if Written(m, v, data) != m {
      StoredShape(m, i.value, v, data);
      StoredFlat(m, i.value, v, data, a);
    } else if i.Some? {
      StoredFlat(m, i.value, v, data, a);
    }
  }

  // ---------------------------------------------------------------------------------------------
  // Whole runs
  // ---------------------------------------------------------------------------------------------

  datatype Op = Allocate(v: int, size: nat) | Write(v: int, data: Bytes)

  function AtLeastOne(size: nat): nat { if size == 0 then 1 else size }

  function Run(ops: seq<Op>): Tracker {
    if ops == [] then Tracker([], map[]) else
      var m := Run(ops[..|ops| - 1]);
      match ops[|ops| - 1]
      case Allocate(v, size) => Added(m, v, AtLeastOne(size))
      case Write(v, data) => Written(m, v, data)
  }

  /** A flat memory that knows nothing of allocations: what the operations made of one byte. */
  ghost function Spec(ops: seq<Op>, a: int): Option<Byte>
    decreases |ops|
  {
    if ops == [] then None else
      var before := ops[..|ops| - 1];
      match ops[|ops| - 1]
      case Allocate(v, size) =>
        if Spec(before, a).Some? then Spec(before, a)
        else if v <= a < v + (if size == 0 then 1 else size) then Some(0) else None
      case Write(v, data) =>
        if v <= a < v + |data| && (forall b :: v <= b < v + |data| ==> Spec(before, b).Some?)
        then Some(data[a - v]) else Spec(before, a)
  }

  /** Every allocation of a run found room. */
  ghost predicate Roomy(ops: seq<Op>)
    decreases |ops|
  {
    ops == [] ||
    (var before, op := ops[..|ops| - 1], ops[|ops| - 1];
     && Roomy(before)
     && (op.Allocate? ==>
           forall a :: op.v < a <= op.v + AtLeastOne(op.size) && Spec(before, a).Some? ==> Spec(before, a - 1).Some?))
  }

  /** The sorted tracker is a flat memory, after every run whose allocations found room. */
  lemma {:induction false} RunIsFlat(ops: seq<Op>)
    requires Roomy(ops)
    ensures Wf(Run(ops)) && forall a :: Flat(Run(ops), a) == Spec(ops, a)
    decreases |ops|
  {
    hide Wf, Flat, Added, Written;
    if ops == [] {
      assert forall i: nat, a :: !In(Run(ops), i, a);
      EmptyFlat();
    } else {
      var before, op := ops[..|ops| - 1], ops[|ops| - 1];
      var m := Run(before);
      RunIsFlat(before);
      match op {
        case Allocate(v, size) =>
          RoomFlat(m, v, AtLeastOne(size));
          AddedWf(m, v, AtLeastOne(size));
          forall a ensures Flat(Run(ops), a) == Spec(ops, a) { AddedFlat(m, v, AtLeastOne(size), a); }
        case Write(v, data) =>
          WrittenFlat(m, v, data, v);
          forall a ensures Flat(Run(ops), a) == Spec(ops, a) { WrittenFlat(m, v, data, a); }
      }
    }
  }

  /** Only next-free allocations with a gap that is not negative. */
  ghost predicate NextOnly(ops: seq<Op>)
    decreases |ops|
  {
    ops == [] ||
    (var before, op := ops[..|ops| - 1], ops[|ops| - 1];
     NextOnly(before) && (op.Allocate? ==> op.v >= NextFree(Run(before))))
  }

  /** Next-free allocations always find room, so every such run is a flat memory. */
  lemma {:induction false} NextOnlyRoomy(ops: seq<Op>)
    requires NextOnly(ops)
    ensures Roomy(ops)
    decreases |ops|
  {
    if ops != [] {
      hide Run, Spec, Wf, Flat, NextFree;
      var before, op := ops[..|ops| - 1], ops[|ops| - 1];
      NextOnlyRoomy(before);
      RunIsFlat(before);
      if op.Allocate? { NextFreeHasRoom(Run(before), op.v - NextFree(Run(before)), 0); }
    }
  }

  lemma EmptyFlat()
    ensures Wf(Tracker([], map[])) && forall a :: Flat(Tracker([], map[]), a).None?
  {
    assert forall i: nat, a :: !In(Tracker([], map[]), i, a);
  }

  /** The next free address, and any gap behind it, always has room, and what it gets is new. */
  lemma NextFreeHasRoom(m: Tracker, offset: nat, size: nat)
    requires Wf(m)
    ensures Room(m, NextFree(m) + offset, size)
    ensures forall a :: a >= NextFree(m) + offset ==> Flat(m, a).None?
  {
    forall a | a >= NextFree(m) + offset ensures Flat(m, a).None? { NextFreeAbove(m, a); }
    NextFreeAbove(m, NextFree(m));
  }

  /** It is the least such address: the byte before it is allocated, and with nothing allocated it is zero. */
  lemma NextFreeLeast(m: Tracker)
    requires Wf(m)
    ensures forall a :: a >= NextFree(m) ==> Flat(m, a).None?
    ensures Flat(m, NextFree(m) - 1).Some? || (NextFree(m) == 0 && forall a :: Flat(m, a).None?)
  {
    NextFreeHasRoom(m, 0, 0);
    if m.addresses == [] {
      assert forall i: nat, a :: !In(m, i, a);
    } else {
      FlatAt(m, |m.addresses| - 1, NextFree(m) - 1);
    }
  }

  /** Without room one byte has two values: a read across the seam does not see what was written. */
  lemma OverlapExample()
    ensures var m := Run([Allocate(10, 1), Write(10, [7]), Allocate(9, 2)]);
            !Wf(m) && Loaded(m, 10, 1) == Some([7]) && Loaded(m, 9, 2) == Some([0, 0])
  {
    hide Run, Added, Written, Loaded;
    var a, b, c := Allocate(10, 1), Write(10, [7]), Allocate(9, 2);
    RunLast([], a);
    RunLast([a], b);
    RunLast([a, b], c);
    assert [] + [a] == [a] && [a] + [b] == [a, b] && [a, b] + [c] == [a, b, c];
    EmptyFlat();
    ExampleFirst();
    ExampleWrite();
    ExampleSecond();
    ExampleLoads();
  }

  lemma RunLast(ops: seq<Op>, op: Op)
    ensures Run([]) == Tracker([], map[])
    ensures op.Allocate? ==> Run(ops + [op]) == Added(Run(ops), op.v, AtLeastOne(op.size))
    ensures op.Write? ==> Run(ops + [op]) == Written(Run(ops), op.v, op.data)
  {
    assert (ops + [op])[..|ops|] == ops;
  }

  lemma ExampleFirst()
    ensures Added(Tracker([], map[]), 10, 1) == Tracker([10], map[10 := [0]])
  {
    assert Zeros(1) == [0];
  }

  lemma ExampleSecond()
    ensures Added(Tracker([10], map[10 := [7]]), 9, 2) == Tracker([9, 10], map[9 := [0, 0], 10 := [7]])
  {
    assert Zeros(2) == [0, 0];
    var m := Tracker([10], map[10 := [7]]);
    assert BisectRight(m.addresses, 9) == 0;
    assert m.addresses[..0] + [9] + m.addresses[0..] == [9, 10];
  }

  lemma ExampleWrite()
    ensures Written(Tracker([10], map[10 := [0]]), 10, [7]) == Tracker([10], map[10 := [7]])
  {
    var m := Tracker([10], map[10 := [0]]);
    assert Spliced([0], 0, [7]) == [7];
    assert BisectRight(m.addresses, 10) == 1 && Containing(m, 10, 1) == Some(0);
  }

  lemma ExampleLoads()
    ensures var m := Tracker([9, 10], map[9 := [0, 0], 10 := [7]]);
            !Wf(m) && Loaded(m, 10, 1) == Some([7]) && Loaded(m, 9, 2) == Some([0, 0])
  {
    var m := Tracker([9, 10], map[9 := [0, 0], 10 := [7]]);
    assert BisectRight([9, 10], 10) == 2 && BisectRight([9, 10], 9) == 1;
    assert Block(m, 0) == [0, 0] && Block(m, 1) == [7];
    assert Block(m, 1)[0..1] == [7] && Block(m, 0)[0..2] == [0, 0];
    assert Containing(m, 10, 1) == Some(1) && Containing(m, 9, 2) == Some(0);
  }

  // ---------------------------------------------------------------------------------------------
  // The tracker as the simulation keeps it
  // ---------------------------------------------------------------------------------------------

  class Writer {
    var addresses: seq<int>
    var allocations: map<int, Bytes>

    function Tracked(): Tracker
      reads this
    {
      Tracker(addresses, allocations)
    }

    constructor ()
      ensures Tracked() == Run([])
    {
      addresses, allocations := [], map[];
    }

    /** The start of the allocation that contains the address or ends right before it. */
    method ContainingOrNeighboring(v: int) returns (start: Option<int>)
      requires Wf(Tracked())
      ensures start.Some? <==> Neighbor(Tracked(), v).Some?
      ensures start.Some? ==>
                var i := Neighbor(Tracked(), v).value; i < |addresses| && start.value == addresses[i]
    {
      if addresses == [] { return None; }
      var position := BisectRight(addresses, v);
      if position > 0 {
        var from := addresses[position - 1];
        assert |Block(Tracked(), position - 1)| > 0;
        var size := |allocations[from]|;
        if v <= from + size { return Some(from); }
      }
      return None;
    }

    method AddMemoryAllocation(v: int, size: nat)
      requires Wf(Tracked())
      modifies this
      ensures Tracked() == Added(old(Tracked()), v, size)
    {
      var existing := ContainingOrNeighboring(v);
      if existing.Some? {
        assert |Block(Tracked(), Neighbor(Tracked(), v).value)| > 0;
        var oldEnd := existing.value + |allocations[existing.value]| - 1;
        var increase := v + size - 1 - oldEnd;
        if increase > 0 {
          allocations := allocations[existing.value := allocations[existing.value] + Zeros(increase)];
        }
      } else {
        var p := BisectRight(addresses, v);
        addresses := addresses[..p] + [v] + addresses[p..];
        allocations := allocations[v := Zeros(size)];
      }
    }

    /** A negative size is refused; a size of zero takes one byte. */
    method AllocateSimMemory(v: int, size: int) returns (ok: bool)
      requires Wf(Tracked())
      modifies this
      ensures ok == (size >= 0)
      ensures Tracked() == if ok then Added(old(Tracked()), v, AtLeastOne(size)) else old(Tracked())
      ensures ok && Room(old(Tracked()), v, AtLeastOne(size)) ==>
                Wf(Tracked()) && forall a :: Flat(Tracked(), a) == FlatAdded(old(Tracked()), v, AtLeastOne(size), a)
    {
      ok := size >= 0;
      if ok {
        ghost var m := Tracked();
        AddMemoryAllocation(v, AtLeastOne(size));
        if Room(m, v, AtLeastOne(size)) {
          AddedWf(m, v, AtLeastOne(size));
          forall a ensures Flat(Tracked(), a) == FlatAdded(m, v, AtLeastOne(size), a) {
            AddedFlat(m, v, AtLeastOne(size), a);
          }
        }
      }
    }

    /**
     The address is the offset behind the last allocated byte, or behind zero if there is none. With
     an offset that is not negative, the bytes handed out are new.
     */
    method AllocateNextFree(len: int, offset: int) returns (ok: bool, at: int)
      requires Wf(Tracked())
      modifies this
      ensures ok == (len >= 0)
      ensures forall a :: a >= at - offset ==> old(Flat(Tracked(), a)).None?
      ensures old(Flat(Tracked(), at - offset - 1)).Some?
           || (at == offset && forall a :: old(Flat(Tracked(), a)).None?)
      ensures !ok ==> Tracked() == old(Tracked())
      ensures ok && offset >= 0 ==>
                && Wf(Tracked())
                && (forall a :: at <= a < at + (if len == 0 then 1 else len) ==>
                      old(Flat(Tracked(), a)).None? && Flat(Tracked(), a) == Some(0))
                && (forall a :: !(at <= a < at + (if len == 0 then 1 else len)) ==>
                      Flat(Tracked(), a) == old(Flat(Tracked(), a)))
    {
      var next := 0;
      if addresses != [] {
        var last := addresses[|addresses| - 1];
        assert |Block(Tracked(), |addresses| - 1)| > 0;
        next := last + |allocations[last]|;
      }
      at := next + offset;
      ghost var m := Tracked();
      NextFreeLeast(m);
      if offset >= 0 && len >= 0 { NextFreeHasRoom(m, offset, AtLeastOne(len)); }
      ok := AllocateSimMemory(at, len);
    }

    /**
     Reads what the flat memory holds, or fails because some byte is not allocated. A negative size
     is not refused: the bound check passes wherever the address has a neighbour, and the slice with
     a negative end counts from the end of the allocation.
     */
    method ReadFromSimMemory(v: int, size: int) returns (r: Option<Bytes>)
      requires Wf(Tracked())
      ensures size > 0 ==> (r.Some? <==> forall a :: v <= a < v + size ==> Flat(Tracked(), a).Some?)
      ensures r.Some? && size >= 0 ==>
                |r.value| == size && forall k :: 0 <= k < size ==> Flat(Tracked(), v + k) == Some(r.value[k])
      ensures size <= 0 ==> (r.Some? <==> Neighbor(Tracked(), v).Some?)
      ensures r.Some? && size < 0 ==>
                var i := Neighbor(Tracked(), v).value;
                && i < |addresses| && addresses[i] <= v
                && var b, lo := Block(Tracked(), i), v - addresses[i];
                   r.value == if lo + size < 0 && lo <= |b| + lo + size then b[lo..|b| + lo + size] else []
    {
      var i := Containing(Tracked(), v, size);
      ReadRange(Tracked(), v, size);
      hide Flat, Wf, Containing, Neighbor, Slice;
      if i.None? { return None; }
      var from := addresses[i.value];
      if size < 0 { SliceBackwards(allocations[from], v - from, v - from + size); }
      return Some(Slice(allocations[from], v - from, v - from + size));
    }

    /** Overwrites the range and nothing else, or fails and changes nothing. */
    method WriteToSimMemory(v: int, data: Bytes) returns (ok: bool)
      requires Wf(Tracked())
      modifies this
      ensures ok == Containing(old(Tracked()), v, |data|).Some?
      ensures |data| > 0 ==> (ok <==> forall a :: v <= a < v + |data| ==> old(Flat(Tracked(), a)).Some?)
      ensures Wf(Tracked())
      ensures forall a :: Flat(Tracked(), a)
                       == if ok && v <= a < v + |data| then Some(data[a - v]) else old(Flat(Tracked(), a))
    {
      hide Containing, Wf, Flat;
      var i := Containing(Tracked(), v, |data|);
      ghost var m := Tracked();
      ok := i.Some?;
      if |data| > 0 { ContainingIff(m, v, |data|); }
      if ok {
        ContainingBounds(m, v, |data|);
        var from := addresses[i.value];
        allocations := allocations[from := Spliced(allocations[from], v - from, data)];
        StoredShape(m, i.value, v, data);
        forall a ensures Flat(Tracked(), a) == if v <= a < v + |data| then Some(data[a - v]) else Flat(m, a) {
          StoredFlat(m, i.value, v, data, a);
        }
      }
    }
  }
}
