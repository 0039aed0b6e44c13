/**
 How long a task waits for the scheduler. It waits for the unfinished tasks in front of it and, with
 reordering, for later ones that need no other bitstream than those: new ones of that kind can keep
 it waiting for ever, and nothing else can.
 */
module Fairness {
  import opened Wrappers
  import opened Scheduler

  /** The bitstreams that let a later task overtake task `j`: the loaded one and those needed in front of it. */
  ghost function Threats(c: Config, s: State, j: nat): set<string>
    requires j <= |s.tasks|
  {
    if !c.reorder then {}
    else {s.bitstream} + set k | 0 <= k < j && Runnable(c, s.tasks[k]) :: c.functions[s.tasks[k].fid]
  }

  ghost predicate Rival(c: Config, t: Task, bits: set<string>) { t.fid in c.functions && c.functions[t.fid] in bits }

  /** How many unfinished tasks may run before task `j` is finished, that one included. */
  ghost function Rivals(c: Config, ts: seq<Task>, j: nat, bits: set<string>): nat {
    if ts == [] then 0
    else
      var k := |ts| - 1;
      Rivals(c, ts[..k], j, bits) + (if !ts[k].completed && (k <= j || Rival(c, ts[k], bits)) then 1 else 0)
  }

  /** How many tasks from position `from` on have one of the bitstreams. */
  ghost function Newcomers(c: Config, ts: seq<Task>, from: nat, bits: set<string>): nat {
    if |ts| <= from then 0
    else
      var k := |ts| - 1;
      Newcomers(c, ts[..k], from, bits) + (if Rival(c, ts[k], bits) then 1 else 0)
  }

  /** The passes among the operations from `m` to `n`. */
  ghost function PassCount(ops: seq<Op>, m: nat, n: nat): nat
    requires m <= n <= |ops|
  {
    if n == m then 0 else PassCount(ops, m, n - 1) + (if ops[n - 1].Schedule? then 1 else 0)
  }

  /** The same tasks, some of them finished meanwhile. */
  ghost predicate Advanced(a: seq<Task>, b: seq<Task>) {
    |a| == |b| && forall i :: 0 <= i < |a| ==> b[i].fid == a[i].fid && (a[i].completed ==> b[i].completed)
  }

  lemma {:induction false} FewerRivals(c: Config, a: seq<Task>, b: seq<Task>, j: nat, bits: set<string>)
    requires Advanced(a, b)
    ensures Rivals(c, b, j, bits) <= Rivals(c, a, j, bits)
    ensures (exists i :: 0 <= i < |a| && !a[i].completed && b[i].completed && (i <= j || Rival(c, a[i], bits)))
            ==> Rivals(c, b, j, bits) < Rivals(c, a, j, bits)
  {
    if a != [] { FewerRivals(c, a[..|a| - 1], b[..|b| - 1], j, bits); }
  }

  lemma {:induction false} SameNewcomers(c: Config, a: seq<Task>, b: seq<Task>, from: nat, bits: set<string>)
    requires Advanced(a, b)
    ensures Newcomers(c, b, from, bits) == Newcomers(c, a, from, bits)
  {
    if |a| > from { SameNewcomers(c, a[..|a| - 1], b[..|b| - 1], from, bits); }
  }

  lemma {:induction false} Counted(c: Config, ts: seq<Task>, j: nat, bits: set<string>)
    requires j < |ts| && !ts[j].completed
    ensures Rivals(c, ts, j, bits) > 0
  {
    if j < |ts| - 1 { Counted(c, ts[..|ts| - 1], j, bits); }
  }

  lemma PassAdvances(c: Config, s: State, o: Outcome, s': State)
    requires Pass(c, s, o, s')
    ensures Advanced(s.tasks, s'.tasks)
  {
    hide Pass, Stops, Picked;
    var stop, i := PassShape(c, s, o, s');
  }

  /** Which task a pass finishes while task `j` is unfinished: one in front, `j` itself, or one that overtakes. */
  lemma PassFinishes(c: Config, s: State, o: Outcome, s': State, j: nat) returns (i: nat)
    requires Pass(c, s, o, s') && j < |s.tasks| && !s.tasks[j].completed
    ensures |s'.tasks| == |s.tasks| && i < |s.tasks| && !s.tasks[i].completed && s'.tasks[i].completed
    ensures i <= j || (c.reorder && Fits(c, s.tasks[i], s.bitstream))
    ensures s'.bitstream == s.bitstream || s'.tasks[j].completed
         || (i < j && Runnable(c, s.tasks[i]) && s'.bitstream == c.functions[s.tasks[i].fid])
  {
    hide Pass;
    var stop, p := PassShape(c, s, o, s');
    i := p;
    if p == |s.tasks| {
      FirstRunnable(c, s);
      assert stop == |s.tasks|;
      i := j;
    } else if j < p && !(c.reorder && Fits(c, s.tasks[p], s.bitstream)) {
      assert !Runnable(c, s.tasks[j]);
      assert j < stop;
      i := j;
    }
  }

  /** So every pass leaves fewer rivals, and no new threats. */
  lemma PassServes(c: Config, s: State, o: Outcome, s': State, j: nat, bits: set<string>)
    requires Pass(c, s, o, s') && j < |s.tasks| && !s.tasks[j].completed && Threats(c, s, j) <= bits
    ensures |s'.tasks| == |s.tasks| && Rivals(c, s'.tasks, j, bits) < Rivals(c, s.tasks, j, bits)
    ensures !s'.tasks[j].completed ==> Threats(c, s', j) <= bits
  {
    hide Pass;
    PassAdvances(c, s, o, s');
    var i := PassFinishes(c, s, o, s', j);
    PassKeepsThreads(c, s, o, s');
    assert i <= j || Rival(c, s.tasks[i], bits);
    FewerRivals(c, s.tasks, s'.tasks, j, bits);
  }

  lemma PassKeepsThreads(c: Config, s: State, o: Outcome, s': State)
    requires Pass(c, s, o, s') && |s'.tasks| == |s.tasks|
    ensures forall k :: 0 <= k < |s.tasks| && Runnable(c, s'.tasks[k]) ==>
              Runnable(c, s.tasks[k]) && s'.tasks[k].fid == s.tasks[k].fid
  {
    hide Pass, Stops, Picked;
    var stop, i := PassShape(c, s, o, s');
  }

  /** A submission adds one rival at most, and only if it has a threatening bitstream. */
  lemma SubmitServes(c: Config, s: State, t: Option<Task>, s': State, j: nat, from: nat, bits: set<string>)
    requires Next(c, s, Submit(t), s') && j < |s.tasks| && from <= |s.tasks| && Threats(c, s, j) <= bits
    ensures Threats(c, s', j) <= bits && Advanced(s.tasks, s'.tasks[..|s.tasks|])
    ensures Rivals(c, s'.tasks, j, bits) - Rivals(c, s.tasks, j, bits)
         <= Newcomers(c, s'.tasks, from, bits) - Newcomers(c, s.tasks, from, bits)
  {
    if s' != s {
      assert s'.tasks[..|s'.tasks| - 1] == s.tasks;
    } else {
      assert s'.tasks[..|s.tasks|] == s.tasks;
    }
  }

  lemma {:induction false} RivalsRun(c: Config, start: string, tr: seq<State>, ops: seq<Op>, m: nat, n: nat, j: nat)
    requires Run(c, start, tr, ops) && m <= n <= |ops| && j < |tr[m].tasks|
    ensures |tr[m].tasks| <= |tr[n].tasks|
    ensures tr[n].tasks[j].completed ||
            var bits := Threats(c, tr[m], j);
            && Threats(c, tr[n], j) <= bits
            && Rivals(c, tr[n].tasks, j, bits) + PassCount(ops, m, n)
               <= Rivals(c, tr[m].tasks, j, bits) + Newcomers(c, tr[n].tasks, |tr[m].tasks|, bits)
    decreases n
  {
    hide Threats, Rivals, Newcomers;
    RunGrows(c, start, tr, ops, m, n);
    if n > m && !tr[n].tasks[j].completed {
      RivalsRun(c, start, tr, ops, m, n - 1, j);
      var s, s', from, bits := tr[n - 1], tr[n], |tr[m].tasks|, Threats(c, tr[m], j);
      assert Next(c, s, ops[n - 1], s');
      NextGrows(c, s, ops[n - 1], s');
      hide Next;
      match ops[n - 1]
      case Submit(t) => SubmitServes(c, s, t, s', j, from, bits);
      case Schedule(o) => PassServed(c, s, o, s', j, from, bits);
    }
  }

  lemma PassServed(c: Config, s: State, o: Outcome, s': State, j: nat, from: nat, bits: set<string>)
    requires Next(c, s, Schedule(o), s') && j < |s.tasks| && !s.tasks[j].completed && Threats(c, s, j) <= bits
    ensures |s'.tasks| == |s.tasks| && Rivals(c, s'.tasks, j, bits) < Rivals(c, s.tasks, j, bits)
    ensures !s'.tasks[j].completed ==> Threats(c, s', j) <= bits
    ensures Newcomers(c, s'.tasks, from, bits) == Newcomers(c, s.tasks, from, bits)
  {
    hide Pass, Threats, Rivals, Newcomers;
    PassServes(c, s, o, s', j, bits);
    PassAdvances(c, s, o, s');
    SameNewcomers(c, s.tasks, s'.tasks, from, bits);
  }

  /**
   A task is finished after as many passes as there were rivals, plus one for every task submitted
   meanwhile with a bitstream that was loaded or needed in front of it.
   */
  lemma FinishedInTime(c: Config, start: string, tr: seq<State>, ops: seq<Op>, m: nat, n: nat, j: nat)
    requires Run(c, start, tr, ops) && m <= n <= |ops| && j < |tr[m].tasks| <= |tr[n].tasks|
    requires var bits := Threats(c, tr[m], j);
             PassCount(ops, m, n) >= Rivals(c, tr[m].tasks, j, bits) + Newcomers(c, tr[n].tasks, |tr[m].tasks|, bits)
    ensures tr[n].tasks[j].completed
  {
    hide Threats, Rivals, Newcomers, Next;
    RivalsRun(c, start, tr, ops, m, n, j);
    if !tr[n].tasks[j].completed { Counted(c, tr[n].tasks, j, Threats(c, tr[m], j)); }
  }

  lemma {:induction false} RivalsUpTo(c: Config, ts: seq<Task>, j: nat)
    requires j < |ts|
    ensures Rivals(c, ts, j, {}) == Incomplete(ts[..j + 1])
  {
    if |ts| == j + 1 {
      RivalsOfPrefix(c, ts, j);
      assert ts[..j + 1] == ts;
    } else {
      RivalsUpTo(c, ts[..|ts| - 1], j);
      assert ts[..|ts| - 1][..j + 1] == ts[..j + 1];
    }
  }

  lemma {:induction false} RivalsOfPrefix(c: Config, ts: seq<Task>, j: nat)
    requires |ts| <= j + 1
    ensures Rivals(c, ts, j, {}) == Incomplete(ts)
  {
    if ts != [] { RivalsOfPrefix(c, ts[..|ts| - 1], j); }
  }

  lemma {:induction false} NoNewcomers(c: Config, ts: seq<Task>, from: nat)
    ensures Newcomers(c, ts, from, {}) == 0
  {
    if |ts| > from { NoNewcomers(c, ts[..|ts| - 1], from); }
  }

  /** Without reordering: after as many passes as there were unfinished tasks up to it, whatever is submitted. */
  lemma FinishedInTurn(c: Config, start: string, tr: seq<State>, ops: seq<Op>, m: nat, n: nat, j: nat)
    requires !c.reorder && Run(c, start, tr, ops) && m <= n <= |ops| && j < |tr[m].tasks|
    requires PassCount(ops, m, n) >= Incomplete(tr[m].tasks[..j + 1])
    ensures |tr[m].tasks| <= |tr[n].tasks| && tr[n].tasks[j].completed
  {
    hide Rivals, Newcomers, Incomplete;
    RunGrows(c, start, tr, ops, m, n);
    RivalsUpTo(c, tr[m].tasks, j);
    NoNewcomers(c, tr[n].tasks, |tr[m].tasks|);
    hide Run;
    FinishedInTime(c, start, tr, ops, m, n, j);
  }

  // ---------------------------------------------------------------------------------------------
  // A task that waits for ever
  // ---------------------------------------------------------------------------------------------

  /** Two functions with a bitstream each, reordering on. */
  const Two := Config(true, true, map[0 := "a", 1 := "b"])

  function NewTask(tid: int, fid: int): Task { Task(tid, fid, true, false, -1, []) }

  /** Bitstream `b` is loaded, the task that needs `a` waits, and all others are finished. */
  ghost predicate Waiting(s: State, n: nat) {
    && |s.tasks| == n + 1 && s.tasks[0] == NewTask(0, 0) && s.bitstream == "b"
    && (forall k :: 0 < k <= n ==> s.tasks[k].completed) && (forall t :: t in s.ids ==> 0 <= t <= n)
  }

  /** A new task that needs `b` is submitted and run. */
  lemma Overtaken(s: State, n: nat) returns (s1: State, s2: State)
    requires Waiting(s, n)
    ensures Next(Two, s, Submit(Some(NewTask(n + 1, 1))), s1)
    ensures Next(Two, s1, Schedule(Outcome(true, Some([]))), s2) && Waiting(s2, n + 1)
  {
    s1 := s.(tasks := s.tasks + [NewTask(n + 1, 1)], ids := s.ids[n + 1 := n + 1]);
    assert Add(Two, s, Some(NewTask(n + 1, 1)), s1, true);
    s2 := Newest(s1, n + 1, Outcome(true, Some([])));
  }

  /** The pass runs the last task, the only one that needs the loaded bitstream. */
  lemma Newest(s: State, n: nat, o: Outcome) returns (s': State)
    requires |s.tasks| == n + 1 && n > 0 && s.tasks[n] == NewTask(n, 1) && s.bitstream == "b"
    requires s.tasks[0] == NewTask(0, 0) && forall k :: 0 < k < n ==> s.tasks[k].completed
    ensures Pass(Two, s, o, s') && s' == s.(tasks := s.tasks[n := Finish(s.tasks[n], o)], log := s'.log)
  {
    assert Fits(Two, s.tasks[n], "b") && !Fits(Two, s.tasks[0], "b");
    assert Stops(Two, s, n) && Picked(Two, s, n);
    assert forall k :: 0 <= k < n ==> !Broken(Two, s.tasks[k]);
    assert s.(tasks := Searched(Two, s.tasks, n)) == s;
    s' := Execute(Two, s, n, o);
    assert PassWith(Two, s, o, n, s');
  }

  /** A run with `n` passes after which the first task still waits. */
  ghost predicate Starved(tr: seq<State>, ops: seq<Op>, n: nat) {
    && Run(Two, "b", tr, ops) && |ops| == 2 * n + 1 && PassCount(ops, 1, |ops|) == n
    && |tr[1].tasks| == 1 && Waiting(tr[|ops|], n)
  }

  /** With reordering a task waits for ever behind new tasks of the loaded bitstream. */
  lemma {:induction false} Starves(n: nat) returns (tr: seq<State>, ops: seq<Op>)
    ensures Starved(tr, ops, n) && !tr[|ops|].tasks[0].completed
  {
    if n == 0 {
      tr, ops := FirstWaits();
    } else {
      tr, ops := Starves(n - 1);
      tr, ops := StarvesOn(tr, ops, n - 1);
    }
  }

  lemma StarvesOn(tr0: seq<State>, ops0: seq<Op>, n: nat) returns (tr: seq<State>, ops: seq<Op>)
    requires Starved(tr0, ops0, n)
    ensures Starved(tr, ops, n + 1)
  {
    hide Next, PassCount;
    var s1, s2 := Overtaken(tr0[|ops0|], n);
    hide Waiting, NewTask;
    tr := tr0 + [s1, s2];
    ops := ops0 + [Submit(Some(NewTask(n + 1, 1))), Schedule(Outcome(true, Some([])))];
    RunLonger(tr0, ops0, tr, ops);
    CountOneMore(ops0, ops);
  }

  lemma FirstWaits() returns (tr: seq<State>, ops: seq<Op>)
    ensures Starved(tr, ops, 0)
  {
    var s := State([], map[], "b", []);
    var s' := s.(tasks := s.tasks + [NewTask(0, 0)], ids := s.ids[0 := 0]);
    assert Add(Two, s, Some(NewTask(0, 0)), s', true);
    tr, ops := [s, s'], [Submit(Some(NewTask(0, 0)))];
  }

  lemma RunLonger(tr0: seq<State>, ops0: seq<Op>, tr: seq<State>, ops: seq<Op>)
    requires Run(Two, "b", tr0, ops0) && |tr| == |tr0| + 2 && |ops| == |ops0| + 2 && tr0 <= tr && ops0 <= ops
    requires Next(Two, tr[|ops0|], ops[|ops0|], tr[|ops0| + 1])
    requires Next(Two, tr[|ops0| + 1], ops[|ops0| + 1], tr[|ops0| + 2])
    ensures Run(Two, "b", tr, ops)
  {
    hide Next;
    forall i | 0 <= i < |ops| ensures Next(Two, tr[i], ops[i], tr[i + 1]) {
      if i < |ops0| { assert tr[i] == tr0[i] && ops[i] == ops0[i] && tr[i + 1] == tr0[i + 1]; }
    }
  }

  lemma CountOneMore(ops0: seq<Op>, ops: seq<Op>)
    requires |ops0| >= 1 && |ops| == |ops0| + 2 && ops0 <= ops && ops[|ops0|].Submit? && ops[|ops0| + 1].Schedule?
    ensures PassCount(ops, 1, |ops|) == PassCount(ops0, 1, |ops0|) + 1
  {
    CountLonger(ops0, ops, |ops0|);
  }

  lemma {:induction false} CountLonger(ops0: seq<Op>, ops: seq<Op>, n: nat)
    requires ops0 <= ops && 1 <= n <= |ops0|
    ensures PassCount(ops, 1, n) == PassCount(ops0, 1, n)
  {
    if n > 1 { CountLonger(ops0, ops, n - 1); }
  }
}
