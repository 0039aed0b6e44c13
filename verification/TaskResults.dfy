/**
 What a scheduler pass does to the tasks, said without the functions that carry it out: which task
 gets which return code and value, what is loaded and recorded, and which tasks are left alone.
 */
module TaskResults {
  import opened LittleEndian
  import opened Wrappers
  import opened Scheduler

  /** The task after its function returned a value or failed: code zero and that value, or code one and none. */
  ghost predicate Result(t: Task, t': Task, returned: Option<Bytes>) {
    && t'.completed && t'.tid == t.tid && t'.fid == t.fid && t'.thread == t.thread
    && (returned.Some? ==> t'.retCode == 0 && t'.retVal == returned.value)
    && (returned.None? ==> t'.retCode == 1 && t'.retVal == t.retVal)
  }

  /** The events that a pass added to the history. */
  ghost function Added(s: State, s': State): seq<Event>
    requires s.log <= s'.log
  {
    s'.log[|s.log|..]
  }

  /** The bitstream of the task can be had: it is loaded, or can be loaded. */
  ghost predicate Available(c: Config, s: State, o: Outcome, b: string) {
    s.bitstream == b || (c.enPr && o.reconfigOk)
  }

  /**
   The picked task runs if its bitstream is to be had, after a reconfiguration if it is not loaded,
   and ends as its function says; otherwise it fails without running, and nothing is loaded.
   */
  lemma PickedResult(c: Config, s: State, o: Outcome, s': State, i: nat)
    requires Pass(c, s, o, s') && Picked(c, s, i)
    ensures i < |s.tasks| == |s'.tasks| && s.tasks[i].fid in c.functions && s.log <= s'.log
    ensures var b := c.functions[s.tasks[i].fid];
            if Available(c, s, o, b) then
              && s'.bitstream == b && Result(s.tasks[i], s'.tasks[i], o.returned)
              && Added(s, s') == (if s.bitstream == b then [] else [Loaded(b)]) + [Ran(i, b)]
            else
              s'.bitstream == s.bitstream && Result(s.tasks[i], s'.tasks[i], None) && Added(s, s') == []
  {
    hide Pass;
    var stop, p := PassShape(c, s, o, s');
    PickedOnce(c, s, i, p);
    hide Stops, Picked;
  }

  lemma PickedOnce(c: Config, s: State, i: nat, p: nat)
    requires Picked(c, s, i) && (p < |s.tasks| ==> Picked(c, s, p)) && (p >= |s.tasks| ==> !Picked(c, s, i))
    ensures p == i
  {
  }

  /** If no task can run, nothing runs and nothing is loaded. */
  lemma NothingPicked(c: Config, s: State, o: Outcome, s': State)
    requires Pass(c, s, o, s') && forall k :: 0 <= k < |s.tasks| ==> !Runnable(c, s.tasks[k])
    ensures s'.log == s.log && s'.bitstream == s.bitstream && |s'.tasks| == |s.tasks|
  {
    hide Pass, Stops;
    var stop, p := PassShape(c, s, o, s');
  }

  /** The search comes past a task: it stops neither at it nor before it. */
  ghost predicate Passed(c: Config, s: State, k: nat)
    requires k < |s.tasks|
  {
    forall j :: 0 <= j <= k ==> !(if c.reorder then Fits(c, s.tasks[j], s.bitstream) else Runnable(c, s.tasks[j]))
  }

  /** Of the other tasks those that cannot run and that the search comes past fail, and the rest is left alone. */
  lemma OtherResult(c: Config, s: State, o: Outcome, s': State, k: nat)
    requires Pass(c, s, o, s') && k < |s.tasks| && !Picked(c, s, k)
    ensures |s'.tasks| == |s.tasks|
    ensures if Broken(c, s.tasks[k]) && Passed(c, s, k) then Result(s.tasks[k], s'.tasks[k], None)
            else s'.tasks[k] == s.tasks[k]
  {
    hide Pass, Picked;
    var stop, p := PassShape(c, s, o, s');
    assert Passed(c, s, k) <==> k < stop;
  }

  /** The pass before state `m + 1` of a run ran task `i`. */
  ghost predicate RanIn(tr: seq<State>, ops: seq<Op>, m: nat, i: nat)
    requires m < |ops| && |tr| == |ops| + 1
  {
    ops[m].Schedule? && tr[m].log <= tr[m + 1].log && exists b :: Ran(i, b) in Added(tr[m], tr[m + 1])
  }

  /** A pass that ran a task ends it as its function says. */
  lemma RanResult(c: Config, s: State, o: Outcome, s': State, i: nat, b: string)
    requires Pass(c, s, o, s') && s.log <= s'.log && Ran(i, b) in Added(s, s')
    ensures i < |s.tasks| == |s'.tasks| && !s.tasks[i].completed && Result(s.tasks[i], s'.tasks[i], o.returned)
  {
    hide Pass, Stops, Picked, Execute, Result;
    var stop, p := PassShape(c, s, o, s');
    if p < |s.tasks| {
      PickedResult(c, s, o, s', p);
      OpenPicked(c, s, p);
    }
  }

  lemma OpenPicked(c: Config, s: State, i: nat)
    requires Picked(c, s, i)
    ensures i < |s.tasks| && !s.tasks[i].completed
  {
  }

  /** A task that is unfinished before a pass and has code zero after it was run by that pass. */
  lemma CodeZeroRan(c: Config, s: State, o: Outcome, s': State, i: nat)
    requires Pass(c, s, o, s') && i < |s.tasks| && |s'.tasks| == |s.tasks| && !s.tasks[i].completed
    requires s'.tasks[i].completed && s'.tasks[i].retCode == 0
    ensures s.log <= s'.log && exists b :: Ran(i, b) in Added(s, s')
    ensures o.returned == Some(s'.tasks[i].retVal)
  {
    hide Pass;
    if Picked(c, s, i) {
      PickedResult(c, s, o, s', i);
      var b := c.functions[s.tasks[i].fid];
      assert Added(s, s')[|Added(s, s')| - 1] == Ran(i, b);
    } else {
      OtherResult(c, s, o, s', i);
    }
  }

  /** Some pass among the first `n` operations ran the task and its function returned the value. */
  ghost predicate Returned(tr: seq<State>, ops: seq<Op>, n: nat, i: nat, v: Bytes)
    requires n <= |ops| && |tr| == |ops| + 1
  {
    exists m: nat :: m < n && RanIn(tr, ops, m, i) && ops[m].o.returned == Some(v)
  }

  /** A value that a function returned stays, with code zero. */
  lemma ReturnedStays(c: Config, start: string, tr: seq<State>, ops: seq<Op>, m: nat, n: nat, i: nat, v: Bytes)
    requires Run(c, start, tr, ops) && m < n <= |ops| && RanIn(tr, ops, m, i) && ops[m].o.returned == Some(v)
    ensures i < |tr[n].tasks| && tr[n].tasks[i].completed && tr[n].tasks[i].retCode == 0 && tr[n].tasks[i].retVal == v
  {
    hide Pass, Added;
    assert Next(c, tr[m], ops[m], tr[m + 1]);
    var b :| Ran(i, b) in Added(tr[m], tr[m + 1]);
    RanResult(c, tr[m], ops[m].o, tr[m + 1], i, b);
    RunGrows(c, start, tr, ops, m + 1, n);
  }

  lemma {:induction false} CodeZeroReturned(c: Config, start: string, tr: seq<State>, ops: seq<Op>, n: nat, i: nat)
    requires Run(c, start, tr, ops) && n <= |ops| && i < |tr[n].tasks|
    requires tr[n].tasks[i].completed && tr[n].tasks[i].retCode == 0
    ensures Returned(tr, ops, n, i, tr[n].tasks[i].retVal)
    decreases n
  {
    hide Pass, Added;
    if n > 0 {
      var s, s', op := tr[n - 1], tr[n], ops[n - 1];
      assert Next(c, s, op, s');
      NextGrows(c, s, op, s');
      if i < |s.tasks| && s.tasks[i].completed {
        CodeZeroReturned(c, start, tr, ops, n - 1, i);
        var m: nat :| m < n - 1 && RanIn(tr, ops, m, i) && ops[m].o.returned == Some(s.tasks[i].retVal);
        assert Returned(tr, ops, n, i, s'.tasks[i].retVal);
      } else {
        ZeroInStep(c, tr, ops, n - 1, i);
        assert Returned(tr, ops, n, i, s'.tasks[i].retVal);
      }
    }
  }

  lemma ZeroInStep(c: Config, tr: seq<State>, ops: seq<Op>, m: nat, i: nat)
    requires |tr| == |ops| + 1 && m < |ops| && Next(c, tr[m], ops[m], tr[m + 1]) && i < |tr[m + 1].tasks|
    requires i < |tr[m].tasks| ==> !tr[m].tasks[i].completed
    requires tr[m + 1].tasks[i].completed && tr[m + 1].tasks[i].retCode == 0
    ensures RanIn(tr, ops, m, i) && ops[m].o.returned == Some(tr[m + 1].tasks[i].retVal)
  {
    hide Pass;
    if ops[m].Schedule? {
      var stop, p := PassShape(c, tr[m], ops[m].o, tr[m + 1]);
      assert |tr[m + 1].tasks| == |tr[m].tasks|;
      CodeZeroRan(c, tr[m], ops[m].o, tr[m + 1], i);
    }
  }

  /** On every run a completed task has code zero exactly when a pass ran it and it returned the recorded value. */
  lemma CodeIsOutcome(c: Config, start: string, tr: seq<State>, ops: seq<Op>, n: nat, i: nat)
    requires Run(c, start, tr, ops) && n <= |ops| && i < |tr[n].tasks| && tr[n].tasks[i].completed
    ensures tr[n].tasks[i].retCode == 0 <==> Returned(tr, ops, n, i, tr[n].tasks[i].retVal)
  {
    hide Next, Added;
    if tr[n].tasks[i].retCode == 0 { CodeZeroReturned(c, start, tr, ops, n, i); }
    if m: nat :| m < n && RanIn(tr, ops, m, i) && ops[m].o.returned == Some(tr[n].tasks[i].retVal) {
      ReturnedStays(c, start, tr, ops, m, n, i, tr[n].tasks[i].retVal);
    }
  }

  /** A submission is accepted exactly if it is a task with a new id and a registered function. */
  lemma SubmitAccepted(c: Config, start: string, tr: seq<State>, ops: seq<Op>, n: nat)
    requires Run(c, start, tr, ops) && n < |ops| && ops[n].Submit?
    ensures var t := ops[n].t;
            && tr[n + 1].bitstream == tr[n].bitstream && tr[n + 1].log == tr[n].log
            && tr[n + 1].tasks == tr[n].tasks
                                  + (if t.Some? && t.value.fid in c.functions && !Known(tr[n], t.value.tid)
                                     then [t.value] else [])
  {
    RunSafe(c, start, tr, ops, n);
    assert Next(c, tr[n], ops[n], tr[n + 1]);
    assert IdsOk(tr[n]);
  }
}
