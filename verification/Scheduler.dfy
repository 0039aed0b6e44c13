/**
 The run-time scheduler of a vFPGA: tasks are submitted, and each scheduler pass picks one of them,
 loads its bitstream if another one is loaded, and runs it. With reordering the pass prefers tasks
 that need no reconfiguration.
 */
module Scheduler {

  import opened LittleEndian
  import opened Wrappers

  /** `cTask`; `thread` says whether it has a Coyote thread to run on. */
  datatype Task = Task(tid: int, fid: int, thread: bool, completed: bool, retCode: int, retVal: Bytes)

  /** Policy, whether reconfiguration is possible, and the bitstream of every registered function. */
  datatype Config = Config(reorder: bool, enPr: bool, functions: map<int, string>)

  /** What happened, in order: a bitstream was loaded; a task's function ran under a bitstream. */
  datatype Event = Loaded(bitstream: string) | Ran(index: nat, bitstream: string)

  datatype State = State(tasks: seq<Task>, ids: map<int, nat>, bitstream: string, log: seq<Event>)

  /** What the outside does in one pass: does a reconfiguration succeed, what does the function return? */
  datatype Outcome = Outcome(reconfigOk: bool, returned: Option<Bytes>)

  function Fail(t: Task): Task { t.(retCode := 1, completed := true) }

  predicate Runnable(c: Config, t: Task) { !t.completed && t.thread && t.fid in c.functions }

  /** Neither finished nor able to run: the pass gives it up when it comes across it. */
  predicate Broken(c: Config, t: Task) { !t.completed && !(t.thread && t.fid in c.functions) }

  predicate Fits(c: Config, t: Task, bitstream: string) {
    Runnable(c, t) && c.functions[t.fid] == bitstream
  }

  // ---------------------------------------------------------------------------------------------
  // One pass
  // ---------------------------------------------------------------------------------------------

  /** Is this the task to run next? The first that fits the loaded bitstream, else the first at all. */
  ghost predicate Picked(c: Config, s: State, i: nat) {
    && i < |s.tasks| && Runnable(c, s.tasks[i])
    && (if c.reorder && (exists k :: 0 <= k < |s.tasks| && Fits(c, s.tasks[k], s.bitstream))
        then Fits(c, s.tasks[i], s.bitstream) && forall k :: 0 <= k < i ==> !Fits(c, s.tasks[k], s.bitstream)
        else forall k :: 0 <= k < i ==> !Runnable(c, s.tasks[k]))
  }

  /** How far the search looks: up to the task it picks, or to the end if it must keep looking. */
  ghost predicate Stops(c: Config, s: State, stop: nat) {
    && stop <= |s.tasks|
    && (forall k :: 0 <= k < stop ==>
          !(if c.reorder then Fits(c, s.tasks[k], s.bitstream) else Runnable(c, s.tasks[k])))
    && (stop < |s.tasks| ==> if c.reorder then Fits(c, s.tasks[stop], s.bitstream) else Runnable(c, s.tasks[stop]))
  }

  /** The tasks after the search: the broken ones it came across have been given up. */
  ghost function Searched(c: Config, ts: seq<Task>, stop: nat): (r: seq<Task>)
    ensures |r| == |ts|
    ensures forall k :: 0 <= k < |ts| ==> r[k] == if k < stop && Broken(c, ts[k]) then Fail(ts[k]) else ts[k]
  {
    seq(|ts|, k requires 0 <= k < |ts| => if k < stop && Broken(c, ts[k]) then Fail(ts[k]) else ts[k])
  }

  function Finish(t: Task, o: Outcome): Task {
    match o.returned
    case Some(v) => t.(retVal := v, retCode := 0, completed := true)
    case None => Fail(t)
  }

  /** The chosen task is run, under its own bitstream, or given up if that cannot be loaded. */
  function Execute(c: Config, s: State, i: nat, o: Outcome): State
    requires i < |s.tasks| && s.tasks[i].fid in c.functions
  {
    var target := c.functions[s.tasks[i].fid];
    if s.bitstream == target then
      s.(tasks := s.tasks[i := Finish(s.tasks[i], o)], log := s.log + [Ran(i, target)])
    else if c.enPr && o.reconfigOk then
      s.(tasks := s.tasks[i := Finish(s.tasks[i], o)], bitstream := target,
         log := s.log + [Loaded(target), Ran(i, target)])
    else
      s.(tasks := s.tasks[i := Fail(s.tasks[i])])
  }

  /** One pass of the scheduler thread. */
  ghost predicate Pass(c: Config, s: State, o: Outcome, s': State) {
    exists stop: nat :: Stops(c, s, stop) && PassWith(c, s, o, stop, s')
  }

  ghost predicate PassWith(c: Config, s: State, o: Outcome, stop: nat, s': State) {
    var s1 := s.(tasks := Searched(c, s.tasks, stop));
    if exists i: nat :: Picked(c, s, i) then
      exists i: nat :: Picked(c, s, i) && s1.tasks[i].fid in c.functions && s' == Execute(c, s1, i, o)
    else s' == s1
  }

  /** `addTask` on a task object; `None` stands for a null pointer. */
  ghost predicate Add(c: Config, s: State, t: Option<Task>, s': State, added: bool) {
    if t.None? || t.value.tid in s.ids || t.value.fid !in c.functions then !added && s' == s
    else added && s' == s.(tasks := s.tasks + [t.value], ids := s.ids[t.value.tid := |s.tasks|])
  }

  // ---------------------------------------------------------------------------------------------
  // The scheduler object
  // ---------------------------------------------------------------------------------------------

  class Sched {
    const c: Config
    var tasks: seq<Task>
    var taskIdMap: map<int, nat>
    var currentBitstream: string
    ghost var log: seq<Event>

    ghost function S(): State
      reads this
    {
      State(tasks, taskIdMap, currentBitstream, log)
    }

    constructor (c: Config, bitstream: string)
      ensures this.c == c && S() == State([], map[], bitstream, [])
    {
      this.c := c;
      tasks, taskIdMap, currentBitstream, log := [], map[], bitstream, [];
    }

    method AddTask(t: Option<Task>) returns (added: bool)
      modifies this
      ensures Add(c, old(S()), t, S(), added)
    {
      if t.None? || t.value.tid in taskIdMap || t.value.fid !in c.functions {
        return false;
      }
      tasks := tasks + [t.value];
      taskIdMap := taskIdMap[t.value.tid := |tasks| - 1];
      added := true;
    }

    /** `isTaskCompleted`: false as well if the id is unknown. */
    method IsTaskCompleted(tid: int) returns (b: bool)
      requires IdsOk(S())
      ensures b <==> Completed(S(), tid)
    {
      b := tid in taskIdMap && tasks[taskIdMap[tid]].tid == tid && tasks[taskIdMap[tid]].completed;
    }

    /** `getTask`. */
    method GetTask(tid: int) returns (r: Option<Task>)
      requires IdsOk(S())
      ensures r.Some? <==> Known(S(), tid)
      ensures r.Some? ==> r.value in tasks && r.value.tid == tid
    {
      r := if tid in taskIdMap && tasks[taskIdMap[tid]].tid == tid then Some(tasks[taskIdMap[tid]]) else None;
    }

    /** The search of one iteration: where it stops and which task it settles on, -1 for none. */
    method Select() returns (stop: nat, next: int)
      modifies this`tasks
      ensures var s := old(S());
              && Stops(c, s, stop) && S() == s.(tasks := Searched(c, s.tasks, stop))
              && (next == -1 ==> forall k :: 0 <= k < |s.tasks| ==> !Runnable(c, s.tasks[k]))
              && (next != -1 ==> 0 <= next && Picked(c, s, next))
    {
      next := -1;
      var i := 0;
      ghost var s := S();
      while i < |tasks|
        invariant 0 <= i <= |s.tasks| == |tasks| && tasks == Searched(c, s.tasks, i)
        invariant forall k :: 0 <= k < i ==>
                    !(if c.reorder then Fits(c, s.tasks[k], s.bitstream) else Runnable(c, s.tasks[k]))
        invariant next == -1 ==> forall k :: 0 <= k < i ==> !Runnable(c, s.tasks[k])
        invariant next != -1 ==> c.reorder && 0 <= next < i && Runnable(c, s.tasks[next]) &&
                                 forall k :: 0 <= k < next ==> !Runnable(c, s.tasks[k])
      {
        var t := tasks[i];
        if !t.completed {
          if !t.thread || t.fid !in c.functions {
            tasks := tasks[i := Fail(t)];
          } else if !c.reorder {
            next := i;
            break;
          } else {
            if next == -1 {
              next := i;
            }
            if currentBitstream == c.functions[t.fid] {
              next := i;
              break;
            }
          }
        }
        assert tasks == Searched(c, s.tasks, i + 1);
        i := i + 1;
      }
      stop := i;
    }

    /** One iteration of the loop in `schedule`. */
    method RunPass(o: Outcome)
      modifies this
      ensures Pass(c, old(S()), o, S())
    {
      ghost var s := S();
      var i, next := Select();
      if next != -1 {
        hide Stops, Searched, Picked;
        var target := c.functions[tasks[next].fid];
        if currentBitstream != target {
          if c.enPr && o.reconfigOk {
            currentBitstream := target;
            log := log + [Loaded(target)];
          } else {
            tasks := tasks[next := Fail(tasks[next])];
          }
        }
        if !tasks[next].completed {
          log := log + [Ran(next, currentBitstream)];
          tasks := tasks[next := Finish(tasks[next], o)];
        }
        assert S() == Execute(c, s.(tasks := Searched(c, s.tasks, i)), next, o);
      }
      assert PassWith(c, s, o, i, S());
    }
  }

  // ---------------------------------------------------------------------------------------------
  // Safety, over every interleaving of submissions and passes
  // ---------------------------------------------------------------------------------------------

  /** A task as its constructor leaves it. */
  predicate New(t: Task) { !t.completed && t.retCode == -1 && t.retVal == [] }

  /** A submission or a pass. */
  datatype Op = Submit(t: Option<Task>) | Schedule(o: Outcome)

  ghost predicate Next(c: Config, s: State, op: Op, s': State) {
    match op
    case Submit(t) => (t.Some? ==> New(t.value)) && (Add(c, s, t, s', true) || Add(c, s, t, s', false))
    case Schedule(o) => Pass(c, s, o, s')
  }

  /** The bitstream that a history leaves loaded. */
  ghost function LoadedBy(start: string, log: seq<Event>): string {
    if log == [] then start
    else
      match log[|log| - 1]
      case Loaded(b) => b
      case Ran(_, _) => LoadedBy(start, log[..|log| - 1])
  }

  predicate HasBitstream(c: Config, t: Task, b: string) { t.fid in c.functions && c.functions[t.fid] == b }

  /** A run in the history was of a finished task, under its own bitstream, which was loaded then. */
  ghost predicate RunOk(c: Config, start: string, s: State, k: nat)
    requires k < |s.log| && s.log[k].Ran?
  {
    var i, b := s.log[k].index, s.log[k].bitstream;
    && i < |s.tasks| && s.tasks[i].completed && HasBitstream(c, s.tasks[i], b)
    && b == LoadedBy(start, s.log[..k])
    && forall j :: 0 <= j < i && HasBitstream(c, s.tasks[j], b) ==> s.tasks[j].completed
  }

  /** Two runs in the history were of different tasks, in submission order if under one bitstream. */
  ghost predicate OrderOk(s: State, k: nat, l: nat)
    requires k < l < |s.log|
  {
    s.log[k].Ran? && s.log[l].Ran? ==>
      && s.log[k].index != s.log[l].index
      && (s.log[k].bitstream == s.log[l].bitstream ==> s.log[k].index < s.log[l].index)
  }

  /** The id map names the task's position, for every task and nothing else. */
  ghost predicate IdsOk(s: State) {
    && (forall i :: 0 <= i < |s.tasks| ==> s.tasks[i].tid in s.ids && s.ids[s.tasks[i].tid] == i)
    && (forall t :: t in s.ids ==> s.ids[t] < |s.tasks| && s.tasks[s.ids[t]].tid == t)
  }

  ghost predicate Inv(c: Config, start: string, s: State) {
    && IdsOk(s) && s.bitstream == LoadedBy(start, s.log)
    && (forall k: nat :: k < |s.log| && s.log[k].Ran? ==> RunOk(c, start, s, k))
    && (forall k: nat, l: nat :: k < l < |s.log| ==> OrderOk(s, k, l))
  }

  /** Tasks keep their identity, and a finished task never changes again. */
  ghost predicate Grows(s: State, s': State) {
    && |s.tasks| <= |s'.tasks| && s.log <= s'.log
    && (forall i :: 0 <= i < |s.tasks| ==>
          s'.tasks[i].tid == s.tasks[i].tid && s'.tasks[i].fid == s.tasks[i].fid
          && (s.tasks[i].completed ==> s'.tasks[i] == s.tasks[i]))
  }

  /** What one pass does, in terms of the task that was picked. */
  lemma PassShape(c: Config, s: State, o: Outcome, s': State) returns (stop: nat, i: nat)
    requires Pass(c, s, o, s')
    ensures Stops(c, s, stop)
    ensures i <= |s.tasks|
    ensures i == |s.tasks| ==> s' == s.(tasks := Searched(c, s.tasks, stop)) && forall k: nat :: !Picked(c, s, k)
    ensures i < |s.tasks| ==> Picked(c, s, i) && s' == Execute(c, s.(tasks := Searched(c, s.tasks, stop)), i, o)
  {
    stop :| Stops(c, s, stop) && PassWith(c, s, o, stop, s');
    if exists k: nat :: Picked(c, s, k) {
      var s1 := s.(tasks := Searched(c, s.tasks, stop));
      i :| Picked(c, s, i) && s1.tasks[i].fid in c.functions && s' == Execute(c, s1, i, o);
    } else {
      i := |s.tasks|;
    }
  }

  /** Everything submitted before the picked task is done with it: finished, given up, or of another bitstream. */
  lemma PickedIsFirst(c: Config, s: State, stop: nat, i: nat, j: nat)
    requires Stops(c, s, stop) && Picked(c, s, i) && j < i
    ensures Searched(c, s.tasks, stop)[j].completed || !HasBitstream(c, s.tasks[j], c.functions[s.tasks[i].fid])
  {
    if c.reorder && exists k :: 0 <= k < |s.tasks| && Fits(c, s.tasks[k], s.bitstream) {
      assert i <= stop;
    } else {
      assert !Runnable(c, s.tasks[j]);
      assert j < stop;
    }
  }

  lemma PassGrows(c: Config, s: State, o: Outcome, s': State)
    requires Pass(c, s, o, s')
    ensures Grows(s, s')
  {
    hide Pass, Stops, PassWith;
    var stop, i := PassShape(c, s, o, s');
  }

  lemma NextGrows(c: Config, s: State, op: Op, s': State)
    requires Next(c, s, op, s')
    ensures Grows(s, s')
  {
    match op
    case Submit(t) =>
    case Schedule(o) => PassGrows(c, s, o, s');
  }

  lemma KeepRunOk(c: Config, start: string, s: State, s': State, k: nat)
    requires Grows(s, s') && k < |s.log| && s.log[k].Ran? && RunOk(c, start, s, k)
    requires forall j :: 0 <= j < |s.tasks| ==>
               HasBitstream(c, s'.tasks[j], s.log[k].bitstream) == HasBitstream(c, s.tasks[j], s.log[k].bitstream)
    ensures s'.log[k] == s.log[k] && RunOk(c, start, s', k)
  {
    assert s'.log[..k] == s.log[..k];
  }

  lemma {:induction false} LoadedSnoc(start: string, log: seq<Event>, e: Event)
    ensures LoadedBy(start, log + [e]) == if e.Loaded? then e.bitstream else LoadedBy(start, log)
  {
    assert (log + [e])[..|log|] == log;
  }

  /** Appending one run of a task that was not finished keeps the history in order. */
  lemma RunAppended(c: Config, start: string, s: State, stop: nat, i: nat, o: Outcome)
    requires Inv(c, start, s) && Stops(c, s, stop) && Picked(c, s, i)
    ensures Inv(c, start, Execute(c, s.(tasks := Searched(c, s.tasks, stop)), i, o))
  {
    hide LoadedBy;
    var s1 := s.(tasks := Searched(c, s.tasks, stop));
    var s' := Execute(c, s1, i, o);
    var target := c.functions[s.tasks[i].fid];
    assert Grows(s, s');
    LoadedSnoc(start, s.log, Loaded(target));
    LoadedSnoc(start, s.log, Ran(i, target));
    LoadedSnoc(start, s.log + [Loaded(target)], Ran(i, target));
    assert s.log + [Loaded(target), Ran(i, target)] == s.log + [Loaded(target)] + [Ran(i, target)];
    forall k: nat | k < |s'.log| && s'.log[k].Ran? ensures RunOk(c, start, s', k) {
      if k < |s.log| {
        KeepRunOk(c, start, s, s', k);
      } else {
        assert s'.log[..k] == s.log || s'.log[..k] == s.log + [Loaded(target)];
        forall j | 0 <= j < i && HasBitstream(c, s'.tasks[j], target) ensures s'.tasks[j].completed {
          PickedIsFirst(c, s, stop, i, j);
        }
      }
    }
    OrderAppended(c, start, s, stop, i, o);
  }

  lemma OrderAppended(c: Config, start: string, s: State, stop: nat, i: nat, o: Outcome)
    requires Inv(c, start, s) && Stops(c, s, stop) && Picked(c, s, i)
    ensures var s' := Execute(c, s.(tasks := Searched(c, s.tasks, stop)), i, o);
            forall k: nat, l: nat :: k < l < |s'.log| ==> OrderOk(s', k, l)
  {
    hide LoadedBy;
    var s' := Execute(c, s.(tasks := Searched(c, s.tasks, stop)), i, o);
    forall k: nat, l: nat | k < l < |s'.log| ensures OrderOk(s', k, l) {
      if l < |s.log| {
        assert OrderOk(s, k, l);
      } else if k < |s.log| && s.log[k].Ran? {
        assert RunOk(c, start, s, k);
      }
    }
  }

  lemma NextKeepsInv(c: Config, start: string, s: State, op: Op, s': State)
    requires Inv(c, start, s) && Next(c, s, op, s')
    ensures Inv(c, start, s')
  {
    hide LoadedBy;
    NextGrows(c, s, op, s');
    match op
    case Submit(t) =>
      forall k: nat | k < |s'.log| && s'.log[k].Ran? ensures RunOk(c, start, s', k) { KeepRunOk(c, start, s, s', k); }
      forall k: nat, l: nat | k < l < |s'.log| ensures OrderOk(s', k, l) { assert OrderOk(s, k, l); }
    case Schedule(o) =>
      var stop, i := PassShape(c, s, o, s');
      if i < |s.tasks| {
        RunAppended(c, start, s, stop, i, o);
      } else {
        forall k: nat | k < |s'.log| && s'.log[k].Ran? ensures RunOk(c, start, s', k) { KeepRunOk(c, start, s, s', k); }
        forall k: nat, l: nat | k < l < |s'.log| ensures OrderOk(s', k, l) { assert OrderOk(s, k, l); }
      }
  }

  /** A run of the scheduler: states and the operations between them. */
  ghost predicate Run(c: Config, start: string, tr: seq<State>, ops: seq<Op>) {
    && |tr| == |ops| + 1 && tr[0] == State([], map[], start, [])
    && forall i :: 0 <= i < |ops| ==> Next(c, tr[i], ops[i], tr[i + 1])
  }

  /**
   In every state of every run: each function ran at most once per task, only while its bitstream
   was loaded, and tasks of one bitstream ran in the order they were submitted.
   */
  lemma {:induction false} RunSafe(c: Config, start: string, tr: seq<State>, ops: seq<Op>, n: nat)
    requires Run(c, start, tr, ops) && n <= |ops|
    ensures Inv(c, start, tr[n])
  {
    if n > 0 {
      RunSafe(c, start, tr, ops, n - 1);
      NextKeepsInv(c, start, tr[n - 1], ops[n - 1], tr[n]);
    }
  }

  /** Between any two moments of a run tasks keep their identity and finished ones stay as they are. */
  lemma {:induction false} RunGrows(c: Config, start: string, tr: seq<State>, ops: seq<Op>, m: nat, n: nat)
    requires Run(c, start, tr, ops) && m <= n <= |ops|
    ensures Grows(tr[m], tr[n])
  {
    if m < n {
      RunGrows(c, start, tr, ops, m, n - 1);
      NextGrows(c, tr[n - 1], ops[n - 1], tr[n]);
    }
  }

  /** What `isTaskCompleted` and `getTask` answer in a state. */
  ghost predicate Completed(s: State, tid: int) {
    exists i :: 0 <= i < |s.tasks| && s.tasks[i].tid == tid && s.tasks[i].completed
  }

  ghost predicate Known(s: State, tid: int) { exists i :: 0 <= i < |s.tasks| && s.tasks[i].tid == tid }

  /**
   Whatever is submitted and scheduled between the two calls, a task that was reported completed is
   found afterwards, still completed: the service's branch for a missing one cannot be reached.
   */
  lemma CompletedIsFound(c: Config, start: string, tr: seq<State>, ops: seq<Op>, m: nat, n: nat, tid: int)
    requires Run(c, start, tr, ops) && m <= n <= |ops| && Completed(tr[m], tid)
    ensures IdsOk(tr[n]) && Known(tr[n], tid) && Completed(tr[n], tid)
  {
    RunSafe(c, start, tr, ops, n);
    RunGrows(c, start, tr, ops, m, n);
    var i :| 0 <= i < |tr[m].tasks| && tr[m].tasks[i].tid == tid && tr[m].tasks[i].completed;
    assert tr[n].tasks[i].tid == tid && tr[n].tasks[i].completed;
  }

  /** Return codes and values: zero with a value, or one without. */
  ghost predicate Coded(t: Task) {
    if t.completed then t.retCode == 0 || (t.retCode == 1 && t.retVal == []) else t.retVal == []
  }

  lemma {:induction false} RunCodes(c: Config, start: string, tr: seq<State>, ops: seq<Op>, n: nat, i: nat)
    requires Run(c, start, tr, ops) && n <= |ops| && i < |tr[n].tasks|
    ensures Coded(tr[n].tasks[i])
    decreases n
  {
    if n > 0 {
      var s, s' := tr[n - 1], tr[n];
      assert Next(c, s, ops[n - 1], s');
      if i < |s.tasks| { RunCodes(c, start, tr, ops, n - 1, i); }
      if ops[n - 1].Schedule? { PassCodes(c, s, ops[n - 1].o, s', i); }
    }
  }

  lemma PassCodes(c: Config, s: State, o: Outcome, s': State, i: nat)
    requires Pass(c, s, o, s') && i < |s.tasks| && Coded(s.tasks[i])
    ensures |s'.tasks| == |s.tasks| && Coded(s'.tasks[i])
  {
    var stop, k := PassShape(c, s, o, s');
    hide Pass, Stops;
  }

  // ---------------------------------------------------------------------------------------------
  // Progress
  // ---------------------------------------------------------------------------------------------

  ghost function Incomplete(ts: seq<Task>): nat {
    if ts == [] then 0 else Incomplete(ts[..|ts| - 1]) + (if ts[|ts| - 1].completed then 0 else 1)
  }

  lemma {:induction false} FewerIncomplete(a: seq<Task>, b: seq<Task>)
    requires |a| == |b| && forall i :: 0 <= i < |a| ==> a[i].completed ==> b[i].completed
    ensures Incomplete(b) <= Incomplete(a)
    ensures (exists i :: 0 <= i < |a| && !a[i].completed && b[i].completed) ==> Incomplete(b) < Incomplete(a)
  {
    if a != [] { FewerIncomplete(a[..|a| - 1], b[..|b| - 1]); }
  }

  /** While a task is unfinished, every pass finishes at least one. */
  lemma PassProgress(c: Config, s: State, o: Outcome, s': State, j: nat)
    requires Pass(c, s, o, s') && j < |s.tasks| && !s.tasks[j].completed
    ensures Incomplete(s'.tasks) < Incomplete(s.tasks)
  {
    hide Incomplete, Pass;
    var stop, i := PassShape(c, s, o, s');
    PassGrows(c, s, o, s');
    if i < |s.tasks| {
      assert !s.tasks[i].completed && s'.tasks[i].completed;
    } else {
      FirstRunnable(c, s);
      assert stop == |s.tasks| && Broken(c, s.tasks[j]);
      assert s'.tasks[j].completed;
    }
    FewerIncomplete(s.tasks, s'.tasks);
  }

  /** If a task can run, one is picked. */
  lemma FirstRunnable(c: Config, s: State)
    ensures (exists k :: 0 <= k < |s.tasks| && Runnable(c, s.tasks[k])) ==> exists i: nat :: Picked(c, s, i)
  {
    if exists k :: 0 <= k < |s.tasks| && Runnable(c, s.tasks[k]) {
      var fits := c.reorder && exists k :: 0 <= k < |s.tasks| && Fits(c, s.tasks[k], s.bitstream);
      var i := 0;
      while !(if fits then Fits(c, s.tasks[i], s.bitstream) else Runnable(c, s.tasks[i]))
        invariant 0 <= i < |s.tasks|
        invariant forall k :: 0 <= k < i ==>
                    !(if fits then Fits(c, s.tasks[k], s.bitstream) else Runnable(c, s.tasks[k]))
        decreases |s.tasks| - i
      {
        i := i + 1;
      }
      assert Picked(c, s, i);
    }
  }

  // ---------------------------------------------------------------------------------------------
  // Fewest reconfigurations
  // ---------------------------------------------------------------------------------------------

  /** Bitstreams of the tasks that still have to run. */
  ghost function Pending(c: Config, s: State): set<string> {
    set k | 0 <= k < |s.tasks| && Runnable(c, s.tasks[k]) :: c.functions[s.tasks[k].fid]
  }

  ghost function Reconfigurations(log: seq<Event>): nat {
    if log == [] then 0 else Reconfigurations(log[..|log| - 1]) + (if log[|log| - 1].Loaded? then 1 else 0)
  }

  /** A batch without broken tasks, on a device that can be reconfigured, with reordering on. */
  ghost predicate Batch(c: Config, s: State) {
    c.reorder && c.enPr && forall k :: 0 <= k < |s.tasks| ==> !Broken(c, s.tasks[k])
  }

  lemma CountLog(log: seq<Event>, e: Event)
    ensures Reconfigurations(log + [e]) == Reconfigurations(log) + if e.Loaded? then 1 else 0
  {
    assert (log + [e])[..|log|] == log;
  }

  lemma CountExecution(log: seq<Event>, i: nat, target: string)
    ensures Reconfigurations(log + [Ran(i, target)]) == Reconfigurations(log)
    ensures Reconfigurations(log + [Loaded(target), Ran(i, target)]) == Reconfigurations(log) + 1
  {
    CountLog(log, Loaded(target));
    CountLog(log, Ran(i, target));
    CountLog(log + [Loaded(target)], Ran(i, target));
    assert log + [Loaded(target), Ran(i, target)] == log + [Loaded(target)] + [Ran(i, target)];
  }

  /** What a pass does to the pending bitstreams: at most the one now loaded disappears. */
  lemma PassPending(c: Config, s: State, o: Outcome, s': State, j: nat)
    requires Batch(c, s) && o.reconfigOk && Pass(c, s, o, s') && j < |s.tasks| && !s.tasks[j].completed
    ensures Batch(c, s') && Pending(c, s') - {s'.bitstream} == Pending(c, s) - {s'.bitstream}
    ensures s'.bitstream in Pending(c, s)
    ensures s.bitstream in Pending(c, s) ==> s'.bitstream == s.bitstream
    ensures Reconfigurations(s'.log) == Reconfigurations(s.log) + if s'.bitstream == s.bitstream then 0 else 1
  {
    hide Pass, Stops, PassWith, Reconfigurations;
    var stop, i := PassShape(c, s, o, s');
    FirstRunnable(c, s);
    assert Runnable(c, s.tasks[j]);
    assert Searched(c, s.tasks, stop) == s.tasks;
    var target := c.functions[s.tasks[i].fid];
    assert target in Pending(c, s);
    CountExecution(s.log, i, target);
    assert forall k :: 0 <= k < |s.tasks| && k != i ==> s'.tasks[k] == s.tasks[k];
    forall b | b in Pending(c, s) && b != target ensures b in Pending(c, s') {
      var k :| 0 <= k < |s.tasks| && Runnable(c, s.tasks[k]) && c.functions[s.tasks[k].fid] == b;
      assert s'.tasks[k] == s.tasks[k];
    }
    forall b | b in Pending(c, s') ensures b in Pending(c, s) {
      var k :| 0 <= k < |s'.tasks| && Runnable(c, s'.tasks[k]) && c.functions[s'.tasks[k].fid] == b;
      assert s'.tasks[k] == s.tasks[k];
    }
    if s.bitstream in Pending(c, s) {
      var k :| 0 <= k < |s.tasks| && Runnable(c, s.tasks[k]) && c.functions[s.tasks[k].fid] == s.bitstream;
      assert Fits(c, s.tasks[k], s.bitstream);
    }
  }

  /** A sequence of passes with successful reconfigurations. */
  ghost predicate Passes(c: Config, tr: seq<State>, os: seq<Outcome>) {
    && |tr| == |os| + 1
    && forall i :: 0 <= i < |os| ==> os[i].reconfigOk && Pass(c, tr[i], os[i], tr[i + 1])
  }

  lemma {:induction false} NoneLeft(c: Config, s: State)
    ensures Incomplete(s.tasks) == 0 <==> forall k :: 0 <= k < |s.tasks| ==> s.tasks[k].completed
    decreases |s.tasks|
  {
    if s.tasks != [] {
      var m := |s.tasks| - 1;
      NoneLeft(c, s.(tasks := s.tasks[..m]));
      assert forall k :: 0 <= k < m ==> s.tasks[..m][k] == s.tasks[k];
    }
  }

  lemma IdlePass(c: Config, s: State, o: Outcome, s': State)
    requires Pass(c, s, o, s') && forall k :: 0 <= k < |s.tasks| ==> s.tasks[k].completed
    ensures s' == s
  {
    var stop, i := PassShape(c, s, o, s');
    assert Searched(c, s.tasks, stop) == s.tasks;
  }

  /**
   The reorder policy drains a batch with one reconfiguration for each pending bitstream that is not
   loaded already.
   */
  lemma {:induction false} DrainCost(c: Config, tr: seq<State>, os: seq<Outcome>)
    requires Passes(c, tr, os) && Batch(c, tr[0]) && |os| >= Incomplete(tr[0].tasks)
    ensures forall k :: 0 <= k < |tr[|os|].tasks| ==> tr[|os|].tasks[k].completed
    ensures Reconfigurations(tr[|os|].log) == Reconfigurations(tr[0].log) + |Pending(c, tr[0]) - {tr[0].bitstream}|
    decreases |os|
  {
    hide Pass, Pending, Incomplete, Reconfigurations;
    var s := tr[0];
    NoneLeft(c, s);
    if os == [] || Incomplete(s.tasks) == 0 {
      NothingPending(c, s);
      DrainIdle(c, tr, os);
    } else {
      var j :| 0 <= j < |s.tasks| && !s.tasks[j].completed;
      PassProgress(c, s, os[0], tr[1], j);
      PassPending(c, s, os[0], tr[1], j);
      assert Passes(c, tr[1..], os[1..]);
      DrainCost(c, tr[1..], os[1..]);
      var b, p := tr[1].bitstream, Pending(c, s);
      if b == s.bitstream {
        assert |p - {b}| == |p - {s.bitstream}|;
      } else {
        assert p - {s.bitstream} == p;
        assert p == (p - {b}) + {b};
      }
    }
  }

  lemma NothingPending(c: Config, s: State)
    requires forall k :: 0 <= k < |s.tasks| ==> s.tasks[k].completed
    ensures Pending(c, s) == {}
  {
  }

  lemma {:induction false} DrainIdle(c: Config, tr: seq<State>, os: seq<Outcome>)
    requires Passes(c, tr, os) && forall k :: 0 <= k < |tr[0].tasks| ==> tr[0].tasks[k].completed
    ensures tr[|os|] == tr[0]
    decreases |os|
  {
    if os != [] {
      IdlePass(c, tr[0], os[0], tr[1]);
      assert Passes(c, tr[1..], os[1..]);
      DrainIdle(c, tr[1..], os[1..]);
    }
  }

  /** Reconfigurations that any order of executions costs, given the bitstream each one needs. */
  ghost function Switches(loaded: string, order: seq<string>): nat
    decreases |order|
  {
    if order == [] then 0 else (if order[0] == loaded then 0 else 1) + Switches(order[0], order[1..])
  }

  ghost function Needed(order: seq<string>): set<string> { set b | b in order }

  lemma {:induction false} SwitchesAtLeast(loaded: string, order: seq<string>)
    ensures Switches(loaded, order) >= |Needed(order) - {loaded}|
    decreases |order|
  {
    if order != [] {
      var b, rest := order[0], order[1..];
      SwitchesAtLeast(b, rest);
      assert order == [b] + rest;
      assert Needed(order) == Needed(rest) + {b};
      if b == loaded {
        assert Needed(order) - {loaded} == Needed(rest) - {b};
      } else {
        Subsets(Needed(order) - {loaded}, (Needed(rest) - {b}) + {b});
      }
    }
  }

  lemma {:induction false} Subsets(a: set<string>, b: set<string>)
    requires a <= b
    ensures |a| <= |b|
    decreases |a|
  {
    if a != {} {
      var x :| x in a;
      Subsets(a - {x}, b - {x});
    }
  }

  /** No order of execution that serves every pending bitstream needs fewer reconfigurations. */
  lemma ReorderIsOptimal(c: Config, tr: seq<State>, os: seq<Outcome>, order: seq<string>)
    requires Passes(c, tr, os) && Batch(c, tr[0]) && |os| >= Incomplete(tr[0].tasks)
    requires forall b :: b in Pending(c, tr[0]) ==> b in order
    ensures Reconfigurations(tr[|os|].log) - Reconfigurations(tr[0].log) <= Switches(tr[0].bitstream, order)
  {
    DrainCost(c, tr, os);
    SwitchesAtLeast(tr[0].bitstream, order);
    Subsets(Pending(c, tr[0]) - {tr[0].bitstream}, Needed(order) - {tr[0].bitstream});
  }
}
