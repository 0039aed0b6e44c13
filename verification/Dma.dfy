/**
 Moving a buffer's pages between host and card memory. The driver issues one DMA command per page
 and throttles itself on the command queue; the card takes commands off the queue and copies
 pages. Driver and card are separate steps here, so a run is any interleaving of the two.
 */
module Dma {

  /** `DMA_THRSH`. */
  const DMA_THRSH: nat := 32

  /** Contents of one 4 KB page, and a memory of pages addressed by frame. */
  type Data = seq<bv8>
  type Memory = map<nat, Data>

  function Read(m: Memory, a: nat): Data { if a in m then m[a] else [] }

  datatype Direction = ToCard | ToHost

  datatype Command = Command(host: nat, card: nat, last: bool)

  /** One migration: the two page arrays and the way the data goes. */
  datatype Job = Job(dir: Direction, hpages: seq<nat>, cpages: seq<nat>)
  {
    predicate Valid() { |hpages| == |cpages| }

    /** An offload passes over pages without an address on either side; a sync does not look. */
    predicate Skips(i: nat)
      requires Valid() && i < |hpages|
    {
      dir == ToCard && (hpages[i] == 0 || cpages[i] == 0)
    }

    function At(i: nat): Command
      requires Valid() && i < |hpages|
    {
      Command(hpages[i], cpages[i], i == |hpages| - 1)
    }

    /** The commands for the pages from `i` on. */
    ghost function Commands(i: nat): (cs: seq<Command>)
      requires Valid() && i <= |hpages|
      decreases |hpages| - i
    {
      if i == |hpages| then []
      else (if Skips(i) then [] else [At(i)]) + Commands(i + 1)
    }
  }

  /**
   Driver and queue: the page the driver is at, its count of commands sent, the commands issued so
   far, how many of them are complete, and whether the completion interrupt of a last command came.
   */
  datatype Engine = Engine(next: nat, sent: nat, log: seq<Command>, completed: nat, irq: bool)
  {
    function Queued(): int { |log| - completed }
  }

  datatype Memories = Memories(host: Memory, card: Memory)

  const Start := Engine(0, 0, [], 0, false)

  /** The effect of one command. */
  function Copied(dir: Direction, m: Memories, c: Command): Memories {
    match dir
    case ToCard => m.(card := m.card[c.card := Read(m.host, c.host)])
    case ToHost => m.(host := m.host[c.host := Read(m.card, c.card)])
  }

  ghost predicate SkipStep(j: Job, e: Engine, e': Engine)
    requires j.Valid()
  {
    e.next < |j.hpages| && j.Skips(e.next) && e' == e.(next := e.next + 1)
  }

  /** At the limit the driver replaces its count by the queue length it reads from the card. */
  ghost predicate PollStep(j: Job, e: Engine, e': Engine)
    requires j.Valid()
  {
    && e.next < |j.hpages| && !j.Skips(e.next) && e.sent >= DMA_THRSH
    && e.Queued() >= 0 && e' == e.(sent := e.Queued())
  }

  ghost predicate IssueStep(j: Job, e: Engine, e': Engine)
    requires j.Valid()
  {
    && e.next < |j.hpages| && !j.Skips(e.next) && e.sent < DMA_THRSH
    && e' == e.(next := e.next + 1, sent := e.sent + 1, log := e.log + [j.At(e.next)])
  }

  ghost predicate DriverStep(j: Job, e: Engine, e': Engine)
    requires j.Valid()
  {
    SkipStep(j, e, e') || PollStep(j, e, e') || IssueStep(j, e, e')
  }

  ghost predicate CardStep(j: Job, e: Engine, m: Memories, e': Engine, m': Memories) {
    && e.completed < |e.log|
    && var c := e.log[e.completed];
       e' == e.(completed := e.completed + 1, irq := e.irq || c.last) && m' == Copied(j.dir, m, c)
  }

  ghost predicate Next(j: Job, e: Engine, m: Memories, e': Engine, m': Memories)
    requires j.Valid()
  {
    (DriverStep(j, e, e') && m' == m) || CardStep(j, e, m, e', m')
  }

  /** The memories after the first `n` commands of a list. */
  ghost function CopiedAll(dir: Direction, m: Memories, cs: seq<Command>, n: nat): Memories
    requires n <= |cs|
  {
    if n == 0 then m else Copied(dir, CopiedAll(dir, m, cs, n - 1), cs[n - 1])
  }

  /** What every interleaving keeps of driver and queue. */
  ghost predicate EngineInv(j: Job, e: Engine)
    requires j.Valid()
  {
    && e.next <= |j.hpages| && e.completed <= |e.log|
    && e.log + j.Commands(e.next) == j.Commands(0)
    && e.Queued() <= e.sent <= DMA_THRSH
    && (e.irq <==> exists i :: 0 <= i < e.completed && e.log[i].last)
  }

  /** ... and of the memories: they are as if the completed commands had run one after the other. */
  ghost predicate Inv(j: Job, m0: Memories, e: Engine, m: Memories)
    requires j.Valid()
  {
    EngineInv(j, e) && m == CopiedAll(j.dir, m0, e.log, e.completed)
  }

  lemma {:induction false} CopiedAllPrefix(dir: Direction, m: Memories, a: seq<Command>, b: seq<Command>, n: nat)
    requires n <= |a|
    ensures CopiedAll(dir, m, a + b, n) == CopiedAll(dir, m, a, n)
  {
    if n > 0 { CopiedAllPrefix(dir, m, a, b, n - 1); }
  }

  lemma InvStart(j: Job, m: Memories)
    requires j.Valid()
    ensures Inv(j, m, Start, m)
  {
  }

  lemma EngineInvStep(j: Job, e: Engine, m: Memories, e': Engine, m': Memories)
    requires j.Valid() && EngineInv(j, e) && Next(j, e, m, e', m')
    ensures EngineInv(j, e')
  {
    if DriverStep(j, e, e') && m' == m {
      if IssueStep(j, e, e') {
        var c := j.At(e.next);
        assert e.log + ([c] + j.Commands(e.next + 1)) == (e.log + [c]) + j.Commands(e.next + 1);
        assert forall i :: 0 <= i < e.completed ==> e'.log[i] == e.log[i];
      } else if SkipStep(j, e, e') {
        assert j.Commands(e.next) == j.Commands(e'.next);
      }
    } else {
      assert forall i :: 0 <= i < e'.completed && e.log[i].last ==> i < e.completed || i == e.completed;
    }
  }

  lemma InvStep(j: Job, m0: Memories, e: Engine, m: Memories, e': Engine, m': Memories)
    requires j.Valid() && Inv(j, m0, e, m) && Next(j, e, m, e', m')
    ensures Inv(j, m0, e', m')
  {
    EngineInvStep(j, e, m, e', m');
    if IssueStep(j, e, e') && m' == m { CopiedAllPrefix(j.dir, m0, e.log, [j.At(e.next)], e.completed); }
  }

  /** A run: the states visited, from the start of the migration on. */
  ghost predicate Run(j: Job, m0: Memories, tr: seq<(Engine, Memories)>)
    requires j.Valid()
  {
    && |tr| > 0 && tr[0] == (Start, m0)
    && forall i :: 0 < i < |tr| ==> Next(j, tr[i - 1].0, tr[i - 1].1, tr[i].0, tr[i].1)
  }

  lemma {:induction false} RunInv(j: Job, m0: Memories, tr: seq<(Engine, Memories)>, i: nat)
    requires j.Valid() && Run(j, m0, tr) && i < |tr|
    ensures Inv(j, m0, tr[i].0, tr[i].1)
  {
    if i == 0 {
      InvStart(j, m0);
    } else {
      RunInv(j, m0, tr, i - 1);
      InvStep(j, m0, tr[i - 1].0, tr[i - 1].1, tr[i].0, tr[i].1);
    }
  }

  /**
   Under every interleaving the queue never holds more than `DMA_THRSH` commands, and what has been
   issued is a prefix of the job's command list.
   */
  lemma Throttled(j: Job, m0: Memories, tr: seq<(Engine, Memories)>, i: nat)
    requires j.Valid() && Run(j, m0, tr) && i < |tr|
    ensures 0 <= tr[i].0.Queued() <= DMA_THRSH
    ensures tr[i].0.log <= j.Commands(0)
  {
    RunInv(j, m0, tr, i);
  }

  /** Pages without a zero address. */
  ghost predicate NonZero(j: Job) {
    (forall i :: 0 <= i < |j.hpages| ==> j.hpages[i] != 0) && (forall i :: 0 <= i < |j.cpages| ==> j.cpages[i] != 0)
  }

  /** With non-zero addresses there is one command per page, in order. */
  lemma {:induction false} OnePerPage(j: Job, i: nat)
    requires j.Valid() && NonZero(j) && i <= |j.hpages|
    ensures |j.Commands(i)| == |j.hpages| - i
    ensures forall k :: 0 <= k < |j.hpages| - i ==> j.Commands(i)[k] == j.At(i + k)
    decreases |j.hpages| - i
  {
    if i < |j.hpages| {
      OnePerPage(j, i + 1);
      assert j.Commands(i) == [j.At(i)] + j.Commands(i + 1);
    }
  }

  /** Only the final page's command is marked last, and only if that page is not passed over. */
  lemma {:induction false} LastIssued(j: Job, i: nat, k: nat)
    requires j.Valid() && i <= |j.hpages| && k < |j.Commands(i)|
    ensures j.Commands(i)[k].last <==> k == |j.Commands(i)| - 1 && !j.Skips(|j.hpages| - 1)
    decreases |j.hpages| - i
  {
    var rest := j.Commands(i + 1);
    if j.Skips(i) {
      LastIssued(j, i + 1, k);
    } else if k > 0 {
      LastIssued(j, i + 1, k - 1);
    } else {
      assert j.Commands(i) == [j.At(i)] + rest;
      if i + 1 < |j.hpages| && rest == [] { EmptyRest(j, i + 1); }
    }
  }

  lemma {:induction false} EmptyRest(j: Job, i: nat)
    requires j.Valid() && i < |j.hpages| && j.Commands(i) == []
    ensures j.Skips(|j.hpages| - 1)
    decreases |j.hpages| - i
  {
    if i + 1 < |j.hpages| { EmptyRest(j, i + 1); }
  }

  /**
   The driver waits for the interrupt of a last command. It can come at all exactly when there is a
   final page and it is not passed over.
   */
  lemma InterruptPossible(j: Job)
    requires j.Valid()
    ensures (exists k :: 0 <= k < |j.Commands(0)| && j.Commands(0)[k].last)
       <==> |j.hpages| > 0 && !j.Skips(|j.hpages| - 1)
  {
    var n := |j.Commands(0)|;
    if |j.hpages| > 0 && !j.Skips(|j.hpages| - 1) {
      if n == 0 { EmptyRest(j, 0); }
      LastIssued(j, 0, n - 1);
    }
    forall k | 0 <= k < n && j.Commands(0)[k].last
      ensures |j.hpages| > 0 && !j.Skips(|j.hpages| - 1)
    {
      LastIssued(j, 0, k);
    }
  }

  /** When the interrupt has come, every command was issued and is complete. */
  lemma InterruptMeansDone(j: Job, e: Engine)
    requires j.Valid() && EngineInv(j, e) && e.irq
    ensures e.log == j.Commands(0) && e.completed == |e.log| && e.next == |j.hpages|
  {
    var i :| 0 <= i < e.completed && e.log[i].last;
    assert j.Commands(0)[i] == e.log[i];
    LastIssued(j, 0, i);
    if e.next < |j.hpages| { EmptyRest(j, e.next); }
  }

  /** Work left: a bound on the steps other than polling that can still be taken. */
  ghost function Work(j: Job, e: Engine): int {
    2 * (|j.hpages| - e.next) + e.Queued()
  }

  /**
   No interleaving gets stuck: until everything is issued and complete there is a step that lowers
   the work, or a poll that lowers the driver's count and leaves the work as it is.
   */
  lemma NeverStuck(j: Job, m0: Memories, e: Engine, m: Memories) returns (e': Engine, m': Memories)
    requires j.Valid() && Inv(j, m0, e, m) && (e.next < |j.hpages| || e.completed < |e.log|)
    ensures Next(j, e, m, e', m')
    ensures 0 <= Work(j, e') < Work(j, e) || (0 <= Work(j, e') == Work(j, e) && e'.sent < e.sent)
  {
    m' := m;
    if e.completed < |e.log| {
      var c := e.log[e.completed];
      e' := e.(completed := e.completed + 1, irq := e.irq || c.last);
      m' := Copied(j.dir, m, c);
      assert CardStep(j, e, m, e', m');
    } else if j.Skips(e.next) {
      e' := e.(next := e.next + 1);
      assert SkipStep(j, e, e');
    } else if e.sent >= DMA_THRSH {
      e' := e.(sent := e.Queued());
      assert PollStep(j, e, e');
    } else {
      e' := e.(next := e.next + 1, sent := e.sent + 1, log := e.log + [j.At(e.next)]);
      assert IssueStep(j, e, e');
    }
  }

  // ---------------------------------------------------------------------------------------------
  // What a migration does to the memories
  // ---------------------------------------------------------------------------------------------

  ghost predicate Distinct(fs: seq<nat>) {
    forall i, k :: 0 <= i < k < |fs| ==> fs[i] != fs[k]
  }

  /** Source and destination side of a migration. */
  ghost function Source(d: Direction, m: Memories): Memory { if d == ToCard then m.host else m.card }
  ghost function Target(d: Direction, m: Memories): Memory { if d == ToCard then m.card else m.host }
  ghost function From(j: Job): seq<nat> { if j.dir == ToCard then j.hpages else j.cpages }
  ghost function To(j: Job): seq<nat> { if j.dir == ToCard then j.cpages else j.hpages }

  /** The first `n` pages are across; the source and all other target frames are as they were. */
  ghost predicate Moved(j: Job, m: Memories, m': Memories, n: nat)
    requires j.Valid() && n <= |j.hpages|
  {
    && Source(j.dir, m') == Source(j.dir, m)
    && (forall k :: 0 <= k < n ==> Read(Target(j.dir, m'), To(j)[k]) == Read(Source(j.dir, m), From(j)[k]))
    && (forall a :: a !in To(j)[..n] ==> Read(Target(j.dir, m'), a) == Read(Target(j.dir, m), a))
  }

  lemma MovedStep(j: Job, m: Memories, mid: Memories, n: nat)
    requires j.Valid() && Distinct(To(j)) && n < |j.hpages| && Moved(j, m, mid, n)
    ensures Moved(j, m, Copied(j.dir, mid, j.At(n)), n + 1)
  {
    var m' := Copied(j.dir, mid, j.At(n));
    assert To(j)[..n + 1] == To(j)[..n] + [To(j)[n]];
    assert To(j)[n] !in To(j)[..n];
    forall k | 0 <= k < n + 1
      ensures Read(Target(j.dir, m'), To(j)[k]) == Read(Source(j.dir, m), From(j)[k])
    {
      if k < n { assert To(j)[k] != To(j)[n]; }
    }
    forall a | a !in To(j)[..n + 1]
      ensures Read(Target(j.dir, m'), a) == Read(Target(j.dir, m), a)
    {
      assert a !in To(j)[..n] && a != To(j)[n];
    }
  }

  /** After `n` commands of a job exactly the first `n` pages have moved. */
  lemma {:induction false} CopiedPages(j: Job, m: Memories, n: nat)
    requires j.Valid() && NonZero(j) && Distinct(To(j)) && n <= |j.hpages|
    ensures |j.Commands(0)| == |j.hpages|
    ensures Moved(j, m, CopiedAll(j.dir, m, j.Commands(0), n), n)
  {
    OnePerPage(j, 0);
    if n > 0 {
      CopiedPages(j, m, n - 1);
      MovedStep(j, m, CopiedAll(j.dir, m, j.Commands(0), n - 1), n - 1);
      assert j.Commands(0)[n - 1] == j.At(n - 1);
    }
  }

  /** The pages a migration moves: a sync all of them, an offload those with an address on either side. */
  ghost predicate Carries(j: Job, k: nat)
    requires j.Valid() && k < |j.hpages|
  {
    j.dir == ToCard ==> j.hpages[k] != 0 && j.cpages[k] != 0
  }

  /** No two pages that are moved go to one frame. */
  ghost predicate TargetsApart(j: Job)
    requires j.Valid()
  {
    forall i, k :: 0 <= i < k < |j.hpages| && Carries(j, i) && Carries(j, k) ==> To(j)[i] != To(j)[k]
  }

  /** Of the pages from `i` on those that are moved are across, and nothing else has changed. */
  ghost predicate MovedFrom(j: Job, m: Memories, m': Memories, i: nat)
    requires j.Valid() && i <= |j.hpages|
  {
    && Source(j.dir, m') == Source(j.dir, m)
    && (forall k :: i <= k < |j.hpages| && Carries(j, k) ==>
          Read(Target(j.dir, m'), To(j)[k]) == Read(Source(j.dir, m), From(j)[k]))
    && (forall a :: (forall k :: i <= k < |j.hpages| && Carries(j, k) ==> To(j)[k] != a) ==>
          Read(Target(j.dir, m'), a) == Read(Target(j.dir, m), a))
  }

  lemma {:induction false} CopiedFirst(dir: Direction, m: Memories, c: Command, cs: seq<Command>, n: nat)
    requires n <= |cs|
    ensures CopiedAll(dir, m, [c] + cs, n + 1) == CopiedAll(dir, Copied(dir, m, c), cs, n)
  {
    if n > 0 { CopiedFirst(dir, m, c, cs, n - 1); }
  }

  lemma {:induction false} CommandsMove(j: Job, m: Memories, i: nat)
    requires j.Valid() && TargetsApart(j) && i <= |j.hpages|
    ensures MovedFrom(j, m, CopiedAll(j.dir, m, j.Commands(i), |j.Commands(i)|), i)
    decreases |j.hpages| - i
  {
    hide Copied;
    if i < |j.hpages| {
      var rest := j.Commands(i + 1);
      if j.Skips(i) {
        assert j.Commands(i) == rest;
        CommandsMove(j, m, i + 1);
        PassedOver(j, m, CopiedAll(j.dir, m, rest, |rest|), i);
      } else {
        var m1 := Copied(j.dir, m, j.At(i));
        CopiedFirst(j.dir, m, j.At(i), rest, |rest|);
        CommandsMove(j, m1, i + 1);
        FirstMoves(j, m, i, CopiedAll(j.dir, m1, rest, |rest|));
      }
    }
  }

  lemma PassedOver(j: Job, m: Memories, m': Memories, i: nat)
    requires j.Valid() && i < |j.hpages| && j.Skips(i) && MovedFrom(j, m, m', i + 1)
    ensures MovedFrom(j, m, m', i)
  {
  }

  lemma FirstMoves(j: Job, m: Memories, i: nat, m': Memories)
    requires j.Valid() && TargetsApart(j) && i < |j.hpages| && !j.Skips(i)
    requires MovedFrom(j, Copied(j.dir, m, j.At(i)), m', i + 1)
    ensures MovedFrom(j, m, m', i)
  {
    var m1 := Copied(j.dir, m, j.At(i));
    assert Carries(j, i);
    forall a | forall k :: i <= k < |j.hpages| && Carries(j, k) ==> To(j)[k] != a
      ensures Read(Target(j.dir, m'), a) == Read(Target(j.dir, m), a)
    {
      assert a != To(j)[i];
    }
  }

  /**
   The same for every list of pages, also with missing ones: when the interrupt comes, the pages with
   addresses are across, and what belongs to a page that was passed over is as it was.
   */
  lemma MigrationExact(j: Job, m0: Memories, tr: seq<(Engine, Memories)>, i: nat)
    requires j.Valid() && TargetsApart(j) && Run(j, m0, tr) && i < |tr| && tr[i].0.irq
    ensures MovedFrom(j, m0, tr[i].1, 0)
  {
    RunInv(j, m0, tr, i);
    InterruptMeansDone(j, tr[i].0);
    CommandsMove(j, m0, 0);
  }

  /** The limit is used: the driver may have that many commands outstanding. */
  lemma {:induction false} LimitReached(j: Job, m: Memories, n: nat) returns (tr: seq<(Engine, Memories)>)
    requires j.Valid() && NonZero(j) && n <= |j.hpages| && n <= DMA_THRSH
    ensures Run(j, m, tr) && tr[|tr| - 1].0.Queued() == n == tr[|tr| - 1].0.next == tr[|tr| - 1].0.sent
    ensures tr[|tr| - 1].1 == m
  {
    if n == 0 {
      tr := [(Start, m)];
    } else {
      var tr0 := LimitReached(j, m, n - 1);
      var e := tr0[|tr0| - 1].0;
      var e' := e.(next := n, sent := n, log := e.log + [j.At(n - 1)]);
      assert IssueStep(j, e, e');
      tr := tr0 + [(e', m)];
    }
  }

  /**
   Whatever the interleaving, when the driver sees the interrupt the whole buffer is across and
   nothing else has changed.
   */
  lemma MigrationMoves(j: Job, m0: Memories, tr: seq<(Engine, Memories)>, i: nat)
    requires j.Valid() && NonZero(j) && Distinct(To(j)) && Run(j, m0, tr) && i < |tr| && tr[i].0.irq
    ensures Moved(j, m0, tr[i].1, |j.hpages|)
  {
    RunInv(j, m0, tr, i);
    InterruptMeansDone(j, tr[i].0);
    CopiedPages(j, m0, |j.hpages|);
  }
}
