/**
 Answers to clients. A service thread scans the tasks of a connection, answers the completed ones
 and erases them while it iterates; the client reads the answers off the socket and files each one
 under its task.
 */
module Responses {
  import opened LittleEndian
  import opened Scheduler

  // ---------------------------------------------------------------------------------------------
  // Scanning a connection's tasks
  // ---------------------------------------------------------------------------------------------

  /** A task of a connection: the client's id for it and the scheduler's. */
  datatype Entry = Entry(client: nat, server: int)

  function Without(es: seq<Entry>, i: nat): seq<Entry>
    requires i < |es|
  {
    es[..i] + es[i + 1..]
  }

  /** A scan from position `i`: the answers it sends and the entries it leaves. */
  ghost function Scan(es: seq<Entry>, i: nat, done: int -> bool): (seq<Entry>, seq<Entry>)
    requires i <= |es|
    decreases |es| - i
  {
    if i == |es| then ([], es)
    else if done(es[i].server) then
      // erasing moves the iterator to the next entry, and the loop then steps over it
      var r := Scan(Without(es, i), if i < |es| - 1 then i + 1 else i, done);
      ([es[i]] + r.0, r.1)
    else Scan(es, i + 1, done)
  }

  /** The tasks of one connection, and the scan of `sendResponses` over them. */
  class Connection {
    var tasks: seq<Entry>

    constructor ()
      ensures tasks == []
    {
      tasks := [];
    }

    method Submit(client: nat, server: int)
      modifies this
      ensures tasks == old(tasks) + [Entry(client, server)]
    {
      tasks := tasks + [Entry(client, server)];
    }

    /** One scan; `done` is the scheduler's answer for each task at the time it is asked. */
    method SendResponses(done: int -> bool) returns (answers: seq<Entry>)
      modifies this
      ensures answers == Scan(old(tasks), 0, done).0 && tasks == Scan(old(tasks), 0, done).1
    {
      answers := [];
      var i := 0;
      while i != |tasks|
        invariant 0 <= i <= |tasks|
        invariant Scan(old(tasks), 0, done).0 == answers + Scan(tasks, i, done).0
        invariant Scan(old(tasks), 0, done).1 == Scan(tasks, i, done).1
        decreases |tasks| - i
      {
        ghost var rest := Scan(tasks, i, done).0;
        if done(tasks[i].server) {
          assert answers + rest == answers + [tasks[i]] + rest[1..];
          answers := answers + [tasks[i]];
          tasks := Without(tasks, i);
        }
        if i != |tasks| {
          i := i + 1;
        }
      }
      assert answers + [] == answers;
    }
  }

  /** The entries a scan answers, from the list alone: those completed, but for one behind an answered one. */
  ghost predicate Answered(es: seq<Entry>, done: int -> bool, p: nat)
    requires p < |es|
  {
    done(es[p].server) && (p > 0 ==> !Answered(es, done, p - 1))
  }

  /** The entries among the first `n` that are answered, or that are not, in their order. */
  ghost function Sorted(es: seq<Entry>, done: int -> bool, n: nat, answered: bool): seq<Entry>
    requires n <= |es|
  {
    if n == 0 then []
    else Sorted(es, done, n - 1, answered) + (if Answered(es, done, n - 1) == answered then [es[n - 1]] else [])
  }

  lemma ScanEnd(es: seq<Entry>, done: int -> bool)
    ensures Scan(es, |es|, done) == ([], es)
  {
  }

  lemma ScanPast(es: seq<Entry>, i: nat, done: int -> bool)
    requires i < |es| && !done(es[i].server)
    ensures Scan(es, i, done) == Scan(es, i + 1, done)
  {
  }

  lemma ScanHit(es: seq<Entry>, i: nat, done: int -> bool)
    requires i < |es| && done(es[i].server)
    ensures var r := Scan(Without(es, i), if i < |es| - 1 then i + 1 else i, done);
            Scan(es, i, done) == ([es[i]] + r.0, r.1)
  {
  }

  /** A completed entry at the end is answered, and the scan is over. */
  lemma ScanLast(kept: seq<Entry>, e: Entry, done: int -> bool)
    requires done(e.server)
    ensures Scan(kept + [e], |kept|, done) == ([e], kept)
  {
    hide Scan;
    ScanHit(kept + [e], |kept|, done);
    assert Without(kept + [e], |kept|) == kept && [e] + [] == [e];
    ScanEnd(kept, done);
  }

  /** A completed entry with others behind it is answered, and the next one is stepped over. */
  lemma ScanSkips(kept: seq<Entry>, e: Entry, next: Entry, rest: seq<Entry>, done: int -> bool)
    requires done(e.server)
    ensures var r := Scan(kept + [next] + rest, |kept| + 1, done);
            Scan(kept + ([e, next] + rest), |kept|, done) == ([e] + r.0, r.1)
  {
    hide Scan;
    var cur := kept + ([e, next] + rest);
    ScanHit(cur, |kept|, done);
    assert cur[|kept|] == e && Without(cur, |kept|) == kept + [next] + rest;
  }

  /** From position `p` of the list on, if the entry before it was not answered. */
  lemma {:induction false} ScanFrom(es: seq<Entry>, done: int -> bool, p: nat)
    requires p <= |es| && (p > 0 ==> !Answered(es, done, p - 1))
    ensures var kept := Sorted(es, done, p, false);
            var r := Scan(kept + es[p..], |kept|, done);
            && Sorted(es, done, |es|, true) == Sorted(es, done, p, true) + r.0
            && Sorted(es, done, |es|, false) == r.1
    decreases |es| - p
  {
    hide Sorted, Scan;
    var kept := Sorted(es, done, p, false);
    var cur := kept + es[p..];
    if p == |es| {
      assert cur == kept;
      ScanEnd(kept, done);
    } else {
      SortedNext(es, done, p);
      if !done(es[p].server) {
        assert cur == kept + [es[p]] + es[p + 1..] && cur[|kept|] == es[p];
        ScanPast(cur, |kept|, done);
        ScanFrom(es, done, p + 1);
      } else if p + 1 == |es| {
        ScanLast(kept, es[p], done);
        assert es[p..] == [es[p]];
      } else {
        SortedNext(es, done, p + 1);
        ScanSkips(kept, es[p], es[p + 1], es[p + 2..], done);
        assert es[p..] == [es[p], es[p + 1]] + es[p + 2..];
        assert Answered(es, done, p) && !Answered(es, done, p + 1);
        ScanFrom(es, done, p + 2);
      }
    }
  }

  lemma SortedNext(es: seq<Entry>, done: int -> bool, p: nat)
    requires p < |es|
    ensures var sent, kept := Sorted(es, done, p, true), Sorted(es, done, p, false);
            && Sorted(es, done, p + 1, true) == (if Answered(es, done, p) then sent + [es[p]] else sent)
            && Sorted(es, done, p + 1, false) == (if Answered(es, done, p) then kept else kept + [es[p]])
  {
  }

  /** One scan answers those entries, in the list's order, and leaves the others in theirs. */
  lemma ScanExact(es: seq<Entry>, done: int -> bool)
    ensures Scan(es, 0, done) == (Sorted(es, done, |es|, true), Sorted(es, done, |es|, false))
  {
    ScanFrom(es, done, 0);
    assert [] + es[0..] == es;
    assert [] + Scan(es, 0, done).0 == Scan(es, 0, done).0;
  }

  /** Answers and remaining entries together are the entries there were. */
  lemma {:induction false} ScanConserves(es: seq<Entry>, i: nat, done: int -> bool)
    requires i <= |es|
    ensures multiset(Scan(es, i, done).0) + multiset(Scan(es, i, done).1) == multiset(es)
    decreases |es| - i
  {
    if i < |es| {
      if done(es[i].server) {
        var i' := if i < |es| - 1 then i + 1 else i;
        ScanConserves(Without(es, i), i', done);
        var r := Scan(Without(es, i), i', done);
        assert multiset([es[i]] + r.0) == multiset{es[i]} + multiset(r.0);
        assert es == es[..i] + [es[i]] + es[i + 1..];
        assert multiset(es) == multiset{es[i]} + multiset(Without(es, i));
      } else {
        ScanConserves(es, i + 1, done);
      }
    }
  }

  /** Only completed tasks are answered. */
  lemma {:induction false} ScanAnswersDone(es: seq<Entry>, i: nat, done: int -> bool, e: Entry)
    requires i <= |es| && e in Scan(es, i, done).0
    ensures done(e.server)
    decreases |es| - i
  {
    if done(es[i].server) {
      if e != es[i] { ScanAnswersDone(Without(es, i), if i < |es| - 1 then i + 1 else i, done, e); }
    } else {
      ScanAnswersDone(es, i + 1, done, e);
    }
  }

  /** An entry the scan has already passed stays where it is. */
  lemma {:induction false} ScanPassed(es: seq<Entry>, i: nat, done: int -> bool, p: nat)
    requires p < i <= |es|
    ensures p < |Scan(es, i, done).1| && Scan(es, i, done).1[p] == es[p]
    decreases |es| - i
  {
    if i < |es| {
      if done(es[i].server) {
        ScanPassed(Without(es, i), if i < |es| - 1 then i + 1 else i, done, p);
      } else {
        ScanPassed(es, i + 1, done, p);
      }
    }
  }

  /** A completed task is answered by the scan, or else it moves towards the front. */
  lemma {:induction false} ScanAdvances(es: seq<Entry>, i: nat, done: int -> bool, p: nat) returns (q: nat)
    requires i <= p < |es| && done(es[p].server)
    ensures var r := Scan(es, i, done); es[p] in r.0 || (q < p && q < |r.1| && r.1[q] == es[p])
    decreases |es| - i
  {
    q := 0;
    if i < p {
      if done(es[i].server) {
        var es' := Without(es, i);
        assert es'[p - 1] == es[p];
        if i + 1 <= p - 1 {
          q := ScanAdvances(es', i + 1, done, p - 1);
        } else {
          q := p - 1;
          ScanPassed(es', i + 1, done, p - 1);
        }
      } else {
        q := ScanAdvances(es, i + 1, done, p);
      }
    }
  }

  /** A run of scans: before each one tasks may have been added, and then the scheduler is asked. */
  datatype Round = Round(added: seq<Entry>, done: int -> bool)

  ghost function After(es: seq<Entry>, rs: seq<Round>): seq<Entry>
    decreases |rs|
  {
    if rs == [] then es else After(Scan(es + rs[0].added, 0, rs[0].done).1, rs[1..])
  }

  ghost function Answers(es: seq<Entry>, rs: seq<Round>): seq<Entry>
    decreases |rs|
  {
    if rs == [] then []
    else
      var r := Scan(es + rs[0].added, 0, rs[0].done);
      r.0 + Answers(r.1, rs[1..])
  }

  /**
   Although a scan steps over the entry behind every one it answers, a completed task at position
   `p` is answered within `p + 1` scans.
   */
  lemma {:induction false} AnsweredInTime(es: seq<Entry>, rs: seq<Round>, p: nat)
    requires p < |es| && |rs| == p + 1
    requires forall k :: 0 <= k < |rs| ==> rs[k].done(es[p].server)
    ensures es[p] in Answers(es, rs)
    decreases |rs|
  {
    var all := es + rs[0].added;
    var r := Scan(all, 0, rs[0].done);
    var q := ScanAdvances(all, 0, rs[0].done, p);
    if es[p] !in r.0 {
      AnsweredInTime(r.1, rs[1..q + 2], q);
      AnswersPrefix(r.1, rs[1..], q + 1);
      assert rs[1..][..q + 1] == rs[1..q + 2];
    }
  }

  lemma {:induction false} AnswersPrefix(es: seq<Entry>, rs: seq<Round>, n: nat)
    requires n <= |rs|
    ensures Answers(es, rs[..n]) <= Answers(es, rs)
    decreases n
  {
    if n > 0 {
      var r := Scan(es + rs[0].added, 0, rs[0].done);
      AnswersPrefix(r.1, rs[1..], n - 1);
      assert rs[..n][1..] == rs[1..][..n - 1];
    }
  }

  /** Over a whole run, answers and open entries together are the entries submitted. */
  lemma {:induction false} AnswersConserve(es: seq<Entry>, rs: seq<Round>)
    ensures multiset(Answers(es, rs)) + multiset(After(es, rs)) == multiset(es) + multiset(AllAdded(rs))
    decreases |rs|
  {
    if rs != [] {
      var r := Scan(es + rs[0].added, 0, rs[0].done);
      ScanConserves(es + rs[0].added, 0, rs[0].done);
      AnswersConserve(r.1, rs[1..]);
      assert multiset(r.0 + Answers(r.1, rs[1..])) == multiset(r.0) + multiset(Answers(r.1, rs[1..]));
      assert multiset(es + rs[0].added) == multiset(es) + multiset(rs[0].added);
      assert multiset(rs[0].added + AllAdded(rs[1..])) == multiset(rs[0].added) + multiset(AllAdded(rs[1..]));
      Regroup(multiset(r.0), multiset(Answers(r.1, rs[1..])), multiset(After(r.1, rs[1..])), multiset(r.1),
              multiset(AllAdded(rs[1..])), multiset(es), multiset(rs[0].added));
    }
  }

  lemma Regroup(a: multiset<Entry>, b: multiset<Entry>, c: multiset<Entry>, d: multiset<Entry>,
                e: multiset<Entry>, f: multiset<Entry>, g: multiset<Entry>)
    requires b + c == d + e && a + d == f + g
    ensures (a + b) + c == f + (g + e)
  {
    assert (a + b) + c == a + (b + c) && a + (d + e) == (a + d) + e;
  }

  ghost function AllAdded(rs: seq<Round>): seq<Entry> {
    if rs == [] then [] else rs[0].added + AllAdded(rs[1..])
  }

  /** The entries of one connection among all submissions; the service counts tasks over all connections. */
  function EntriesOf(subs: seq<(int, nat)>, conn: int, counter: int): seq<Entry> {
    if subs == [] then []
    else
      var rest := EntriesOf(subs[1..], conn, counter + 1);
      if subs[0].0 == conn then [Entry(subs[0].1, counter)] + rest else rest
  }

  /** Ids of the scheduler ascend from a number on, so no two entries are equal. */
  ghost predicate Ascending(es: seq<Entry>, from: int) {
    && (forall a :: 0 <= a < |es| ==> es[a].server >= from)
    && (forall a, b :: 0 <= a < b < |es| ==> es[a].server < es[b].server)
  }

  lemma {:induction false} EntriesAscend(subs: seq<(int, nat)>, conn: int, counter: int)
    ensures Ascending(EntriesOf(subs, conn, counter), counter)
    decreases |subs|
  {
    if subs != [] {
      EntriesAscend(subs[1..], conn, counter + 1);
      AscendingCons(Entry(subs[0].1, counter), EntriesOf(subs[1..], conn, counter + 1));
      hide Ascending;
    }
  }

  lemma AscendingCons(e: Entry, es: seq<Entry>)
    requires Ascending(es, e.server + 1)
    ensures Ascending([e] + es, e.server) && Ascending(es, e.server)
  {
  }

  /** On every run of submissions and scans no entry is answered twice. */
  lemma NeverTwice(subs: seq<(int, nat)>, conn: int, rs: seq<Round>, i: nat, j: nat)
    requires AllAdded(rs) == EntriesOf(subs, conn, 0) && i < j < |Answers([], rs)|
    ensures Answers([], rs)[i] != Answers([], rs)[j]
  {
    EntriesAscend(subs, conn, 0);
    AnswersConserve([], rs);
    var all, ans := AllAdded(rs), Answers([], rs);
    assert multiset(ans) + multiset(After([], rs)) == multiset(all);
    OnceEach(all, ans[i]);
    Twice(ans, i, j);
  }

  lemma Twice(es: seq<Entry>, i: nat, j: nat)
    requires i < j < |es|
    ensures es[i] == es[j] ==> multiset(es)[es[i]] >= 2
  {
    assert es == es[..j] + [es[j]] + es[j + 1..];
    assert es[i] in es[..j];
  }

  lemma {:induction false} OnceEach(es: seq<Entry>, e: Entry)
    requires forall a, b :: 0 <= a < b < |es| ==> es[a] != es[b]
    ensures multiset(es)[e] <= 1
  {
    if es != [] {
      var m := |es| - 1;
      OnceEach(es[..m], e);
      assert es == es[..m] + [es[m]];
      if e == es[m] { assert e !in es[..m]; }
    }
  }

  // ---------------------------------------------------------------------------------------------
  // The wire
  // ---------------------------------------------------------------------------------------------

  /** An answer: return code, the client's task id, and the return value if the code is zero. */
  datatype Reply = Reply(code: nat, client: nat, value: Bytes)

  function Wire(r: Reply): Bytes { Word(r.code, 4) + Word(r.client, 4) + r.value }

  ghost function WireAll(rs: seq<Reply>): Bytes {
    if rs == [] then [] else Wire(rs[0]) + WireAll(rs[1..])
  }

  /** A task as the client tracks it. */
  datatype ClientTask = ClientTask(size: nat, completed: bool, code: int, value: Bytes)

  type Tasks = map<nat, ClientTask>

  /**
   The client's state and unread bytes after it has read what there is; `failed` if it is left with
   fewer bytes than the value it wants to read.
   */
  datatype Received = Received(tasks: Tasks, unread: Bytes, failed: bool)

  function Filed(ts: Tasks, r: Reply): Tasks
    requires r.client in ts
  {
    var p := ts[r.client].(code := r.code, completed := true);
    ts[r.client := if r.code == 0 then p.(value := r.value) else p]
  }

  /** The reading loop on the bytes of a stream. */
  ghost function Receive(ts: Tasks, stream: Bytes): Received
    decreases |stream|
  {
    if |stream| < 8 then Received(ts, stream, false)
    else
      var code, client, rest := Number(stream[..4]), Number(stream[4..8]), stream[8..];
      if client !in ts then Receive(ts, rest)
      else if code == 0 && |rest| < ts[client].size then Received(ts, rest, true)
      else
        var value := if code == 0 then rest[..ts[client].size] else [];
        Receive(Filed(ts, Reply(code, client, value)), rest[|value|..])
  }

  /** `checkCompletedTasks`. */
  class Client {
    var tasks: Tasks

    method CheckCompletedTasks(stream: Bytes) returns (unread: Bytes, failed: bool)
      modifies this
      ensures Received(tasks, unread, failed) == Receive(old(tasks), stream)
    {
      unread, failed := stream, false;
      while |unread| >= 8
        invariant !failed && Receive(old(tasks), stream) == Receive(tasks, unread)
        decreases |unread|
      {
        var code, client := Number(unread[..4]), Number(unread[4..8]);
        unread := unread[8..];
        if client in tasks {
          if code == 0 {
            var size := tasks[client].size;
            if |unread| < size {
              return unread, true;
            }
            tasks := tasks[client := tasks[client].(value := unread[..size], code := code, completed := true)];
            unread := unread[size..];
          } else {
            tasks := tasks[client := tasks[client].(code := code, completed := true)];
          }
        }
      }
    }
  }

  /** An answer as the client expects it: a known task, and a return value of that task's size. */
  ghost predicate Expected(ts: Tasks, r: Reply) {
    && r.code < Range(4) && r.client < Range(4) && r.client in ts
    && |r.value| == if r.code == 0 then ts[r.client].size else 0
  }

  ghost function FiledAll(ts: Tasks, rs: seq<Reply>): (ts': Tasks)
    requires forall k :: 0 <= k < |rs| ==> rs[k].client in ts
    ensures ts'.Keys == ts.Keys
    decreases |rs|
  {
    if rs == [] then ts else FiledAll(Filed(ts, rs[0]), rs[1..])
  }

  lemma ReceiveOne(ts: Tasks, r: Reply, rest: Bytes)
    requires Expected(ts, r)
    ensures Receive(ts, Wire(r) + rest) == Receive(Filed(ts, r), rest)
  {
    hide Number, Word;
    var stream := Wire(r) + rest;
    assert stream == Word(r.code, 4) + (Word(r.client, 4) + r.value + rest);
    assert stream[4..] == Word(r.client, 4) + (r.value + rest);
    assert stream[..4] == Word(r.code, 4) && stream[4..8] == Word(r.client, 4);
    WordRoundTrip(r.code, 4);
    WordRoundTrip(r.client, 4);
    var tail := stream[8..];
    assert tail == r.value + rest;
    assert tail[..|r.value|] == r.value && tail[|r.value|..] == rest;
    assert r.code != 0 ==> r.value == [];
  }

  /** A stream of expected answers is read to the last byte, each answer under its own task. */
  lemma {:induction false} ReceiveAll(ts: Tasks, rs: seq<Reply>)
    requires forall k :: 0 <= k < |rs| ==> rs[k].client in ts && Expected(ts, rs[k])
    ensures Receive(ts, WireAll(rs)) == Received(FiledAll(ts, rs), [], false)
    decreases |rs|
  {
    if rs != [] {
      ReceiveOne(ts, rs[0], WireAll(rs[1..]));
      ReceiveAll(Filed(ts, rs[0]), rs[1..]);
    }
  }

  /** A header for a task the client does not know is read and dropped. */
  lemma ReceiveUnknown(ts: Tasks, code: nat, client: nat, rest: Bytes)
    requires client < Range(4) && client !in ts
    ensures Receive(ts, Word(code, 4) + Word(client, 4) + rest) == Receive(ts, rest)
  {
    hide Number, Word;
    var stream := Word(code, 4) + Word(client, 4) + rest;
    assert stream[4..8] == Word(client, 4) && stream[8..] == rest;
    WordRoundTrip(client, 4);
  }

  /** With fewer bytes than the value needs the client stops behind the header and records nothing. */
  lemma ReceiveShort(ts: Tasks, client: nat, rest: Bytes)
    requires client < Range(4) && client in ts && |rest| < ts[client].size
    ensures Receive(ts, Word(0, 4) + Word(client, 4) + rest) == Received(ts, rest, true)
  {
    hide Number, Word;
    var stream := Word(0, 4) + Word(client, 4) + rest;
    assert stream[..4] == Word(0, 4) && stream[4..8] == Word(client, 4) && stream[8..] == rest;
    SmallRange();
    WordRoundTrip(0, 4);
    WordRoundTrip(client, 4);
  }

  /** With one answer per task, every task ends with its own answer, in whatever order they come. */
  lemma {:induction false} FiledUnder(ts: Tasks, rs: seq<Reply>, k: nat)
    requires forall i :: 0 <= i < |rs| ==> rs[i].client in ts
    requires forall i, j :: 0 <= i < j < |rs| ==> rs[i].client != rs[j].client
    requires k < |rs|
    ensures var p := FiledAll(ts, rs)[rs[k].client];
            && p.completed && p.code == rs[k].code && p.size == ts[rs[k].client].size
            && p.value == if rs[k].code == 0 then rs[k].value else ts[rs[k].client].value
    decreases |rs|
  {
    if k == 0 {
      FiledElsewhere(Filed(ts, rs[0]), rs[1..], rs[0].client);
    } else {
      FiledUnder(Filed(ts, rs[0]), rs[1..], k - 1);
    }
  }

  lemma {:induction false} FiledElsewhere(ts: Tasks, rs: seq<Reply>, client: nat)
    requires forall i :: 0 <= i < |rs| ==> rs[i].client in ts && rs[i].client != client
    requires client in ts
    ensures FiledAll(ts, rs)[client] == ts[client]
    decreases |rs|
  {
    if rs != [] { FiledElsewhere(Filed(ts, rs[0]), rs[1..], client); }
  }

  /** The answers the client reads out of a stream, in order. */
  ghost function Parsed(ts: Tasks, stream: Bytes): seq<Reply>
    decreases |stream|
  {
    if |stream| < 8 then []
    else
      var code, client, rest := Number(stream[..4]), Number(stream[4..8]), stream[8..];
      if client !in ts then Parsed(ts, rest)
      else if code == 0 && |rest| < ts[client].size then []
      else
        var value := if code == 0 then rest[..ts[client].size] else [];
        [Reply(code, client, value)] + Parsed(ts, rest[|value|..])
  }

  ghost predicate SameSizes(ts: Tasks, ts': Tasks) {
    ts.Keys == ts'.Keys && forall c :: c in ts ==> ts[c].size == ts'[c].size
  }

  lemma {:induction false} ParsedSame(ts: Tasks, ts': Tasks, stream: Bytes)
    requires SameSizes(ts, ts')
    ensures Parsed(ts, stream) == Parsed(ts', stream)
    decreases |stream|
  {
    hide Number;
    if |stream| >= 8 {
      var code, client, rest := Number(stream[..4]), Number(stream[4..8]), stream[8..];
      if client !in ts {
        ParsedSame(ts, ts', rest);
      } else if code != 0 || |rest| >= ts[client].size {
        var value := if code == 0 then rest[..ts[client].size] else [];
        ParsedSame(ts, ts', rest[|value|..]);
      }
    }
  }

  /** What the client ends with is what it read, filed in order. */
  lemma {:induction false} ParsedFiled(ts: Tasks, stream: Bytes)
    ensures forall k :: 0 <= k < |Parsed(ts, stream)| ==> Parsed(ts, stream)[k].client in ts
    ensures Receive(ts, stream).tasks == FiledAll(ts, Parsed(ts, stream))
    decreases |stream|
  {
    hide Number;
    if |stream| >= 8 {
      var code, client, rest := Number(stream[..4]), Number(stream[4..8]), stream[8..];
      if client !in ts {
        ParsedFiled(ts, rest);
      } else if code != 0 || |rest| >= ts[client].size {
        var value := if code == 0 then rest[..ts[client].size] else [];
        var r, tail := Reply(code, client, value), rest[|value|..];
        ParsedSame(ts, Filed(ts, r), tail);
        ParsedFiled(Filed(ts, r), tail);
        assert Parsed(ts, stream) == [r] + Parsed(ts, tail);
        assert Parsed(ts, stream)[1..] == Parsed(ts, tail);
      }
    }
  }

  lemma ParsedOne(ts: Tasks, r: Reply, rest: Bytes)
    requires Expected(ts, r)
    ensures Parsed(ts, Wire(r) + rest) == [r] + Parsed(ts, rest)
  {
    hide Number, Word;
    var stream := Wire(r) + rest;
    assert stream[..4] == Word(r.code, 4) && stream[4..8] == Word(r.client, 4);
    WordRoundTrip(r.code, 4);
    WordRoundTrip(r.client, 4);
    var tail := stream[8..];
    assert tail == r.value + rest;
    assert tail[..|r.value|] == r.value && tail[|r.value|..] == rest;
    assert r.code != 0 ==> r.value == [];
  }

  // ---------------------------------------------------------------------------------------------
  // From the scheduler to the client
  // ---------------------------------------------------------------------------------------------

  /** A completed task of the client: its id there, and how the scheduler left it. */
  datatype Done = Done(client: nat, task: Task)
  {
    predicate Failed() { task.retCode != 0 }
  }

  /**
   The frame `sendResponses` writes for a task. The code is zero whatever the task's own code is; a
   failed task has no return value, so the second write has nothing to send and is refused.
   */
  function Sent(d: Done): Reply { Reply(0, d.client, d.task.retVal) }

  /** The answer the client is meant to read. */
  function Meant(d: Done): Reply { Reply(if d.Failed() then 1 else 0, d.client, d.task.retVal) }

  function SentAll(ds: seq<Done>): seq<Reply> { seq(|ds|, i requires 0 <= i < |ds| => Sent(ds[i])) }

  function MeantAll(ds: seq<Done>): seq<Reply> { seq(|ds|, i requires 0 <= i < |ds| => Meant(ds[i])) }

  /** The client knows the task, and a value has the size of the task's return type, one byte at least. */
  ghost predicate Answerable(ts: Tasks, d: Done) {
    && d.client < Range(4) && d.client in ts && ts[d.client].size > 0
    && |d.task.retVal| == if d.Failed() then 0 else ts[d.client].size
  }

  lemma MeantFirst(ds: seq<Done>)
    requires ds != []
    ensures MeantAll(ds) == [Meant(ds[0])] + MeantAll(ds[1..])
  {
  }

  /** A successful task in front is read as it is meant. */
  lemma SentFirst(ts: Tasks, ds: seq<Done>)
    requires ds != [] && Answerable(ts, ds[0]) && !ds[0].Failed()
    ensures Parsed(ts, WireAll(SentAll(ds))) == [Meant(ds[0])] + Parsed(ts, WireAll(SentAll(ds[1..])))
  {
    hide Parsed, Wire;
    assert SentAll(ds)[1..] == SentAll(ds[1..]) && SentAll(ds)[0] == Sent(ds[0]);
    SmallRange();
    ParsedOne(ts, Sent(ds[0]), WireAll(SentAll(ds[1..])));
  }

  /** Up to the first failed task the client reads every answer as it is meant. */
  lemma {:induction false} InFrame(ts: Tasks, ds: seq<Done>, n: nat)
    requires n <= |ds| && forall k :: 0 <= k < n ==> Answerable(ts, ds[k]) && !ds[k].Failed()
    ensures Parsed(ts, WireAll(SentAll(ds))) == MeantAll(ds[..n]) + Parsed(ts, WireAll(SentAll(ds[n..])))
    decreases n
  {
    assert n == 0 ==> MeantAll(ds[..n]) == [];
    hide Parsed, WireAll, SentAll, MeantAll;
    if n == 0 {
      assert ds[0..] == ds;
    } else {
      var rest := ds[1..];
      InFrame(ts, rest, n - 1);
      SentFirst(ts, ds);
      assert ds[..n][1..] == rest[..n - 1] && rest[n - 1..] == ds[n..];
      MeantFirst(ds[..n]);
      var later := Parsed(ts, WireAll(SentAll(ds[n..])));
      assert [Meant(ds[0])] + (MeantAll(rest[..n - 1]) + later) == MeantAll(ds[..n]) + later;
    }
  }

  /** A failed task in front is never read as it is meant: it is read with code zero, or not at all. */
  lemma FailedFrame(ts: Tasks, ds: seq<Done>)
    requires ds != [] && Answerable(ts, ds[0]) && ds[0].Failed()
    ensures var p := Parsed(ts, WireAll(SentAll(ds))); p == [] || p[0] != Meant(ds[0])
  {
    hide Number, Word;
    var r, rest := Sent(ds[0]), WireAll(SentAll(ds)[1..]);
    var stream := WireAll(SentAll(ds));
    assert stream == Wire(r) + rest;
    assert stream[..4] == Word(0, 4) && stream[4..8] == Word(r.client, 4);
    SmallRange();
    WordRoundTrip(0, 4);
    WordRoundTrip(r.client, 4);
  }

  /**
   The client reads exactly the answers that are meant, for every order of the tasks, if and only if
   no task failed.
   */
  lemma ReportedExact(ts: Tasks, ds: seq<Done>)
    requires forall k :: 0 <= k < |ds| ==> Answerable(ts, ds[k])
    ensures Parsed(ts, WireAll(SentAll(ds))) == MeantAll(ds) <==> forall k :: 0 <= k < |ds| ==> !ds[k].Failed()
  {
    hide Parsed, WireAll;
    var n := FirstFailed(ds);
    InFrame(ts, ds, n);
    if n < |ds| {
      FailedFrame(ts, ds[n..]);
      assert MeantAll(ds)[n] == Meant(ds[n]);
      var p := Parsed(ts, WireAll(SentAll(ds[n..])));
      assert p != [] ==> (MeantAll(ds[..n]) + p)[n] == p[0];
    } else {
      assert ds[..n] == ds && ds[n..] == [];
      NothingSent(ts);
    }
  }

  function FirstFailed(ds: seq<Done>): (n: nat)
    ensures n <= |ds| && (n < |ds| ==> ds[n].Failed()) && forall k :: 0 <= k < n ==> !ds[k].Failed()
  {
    if ds == [] then 0 else if ds[0].Failed() then 0 else 1 + FirstFailed(ds[1..])
  }

  lemma NothingSent(ts: Tasks)
    ensures Parsed(ts, WireAll(SentAll([]))) == []
  {
  }

  /** Without failed tasks every task of the client ends with its own code and value. */
  lemma ReportedValues(ts: Tasks, ds: seq<Done>, k: nat)
    requires forall i :: 0 <= i < |ds| ==> Answerable(ts, ds[i]) && !ds[i].Failed()
    requires forall i, j :: 0 <= i < j < |ds| ==> ds[i].client != ds[j].client
    requires k < |ds|
    ensures var r := Receive(ts, WireAll(SentAll(ds)));
            && ds[k].client in r.tasks
            && r.tasks[ds[k].client].completed && r.tasks[ds[k].client].code == 0
            && r.tasks[ds[k].client].value == ds[k].task.retVal
  {
    hide Parsed, Receive, WireAll;
    ReportedExact(ts, ds);
    ParsedFiled(ts, WireAll(SentAll(ds)));
    FiledUnder(ts, MeantAll(ds), k);
  }

  /** A failed answer that comes last is not seen at all: its task stays open. */
  lemma LastFailureUnseen(ts: Tasks, ds: seq<Done>)
    requires ds != [] && forall i :: 0 <= i < |ds| ==> Answerable(ts, ds[i])
    requires forall i :: 0 <= i < |ds| ==> (ds[i].Failed() <==> i == |ds| - 1)
    ensures Parsed(ts, WireAll(SentAll(ds))) == MeantAll(ds[..|ds| - 1])
  {
    hide Parsed, WireAll;
    var n := |ds| - 1;
    InFrame(ts, ds, n);
    assert ds[n..] == [ds[n]];
    LoneFailure(ts, ds[n]);
  }

  lemma LoneFailure(ts: Tasks, d: Done)
    requires Answerable(ts, d) && d.Failed()
    ensures Parsed(ts, WireAll(SentAll([d]))) == []
  {
    hide Number, Word;
    var stream := WireAll(SentAll([d]));
    assert SentAll([d])[1..] == [];
    assert stream == Wire(Sent(d)) + [] == Word(0, 4) + Word(d.client, 4);
    assert stream[..4] == Word(0, 4) && stream[4..8] == Word(d.client, 4) && stream[8..] == [];
    SmallRange();
    WordRoundTrip(0, 4);
    WordRoundTrip(d.client, 4);
  }

  /**
   A failed task 5 and behind it a task 6 that succeeded with four bytes: the client files the next
   header as the value of task 5 and never completes task 6.
   */
  lemma MisfiledExample()
    ensures var open := ClientTask(4, false, 0, []);
            var ts: Tasks := map[5 := open, 6 := open];
            var ds := [Done(5, Task(8, 1, true, true, 1, [])), Done(6, Task(9, 1, true, true, 0, [1, 2, 3, 4]))];
            && Answerable(ts, ds[0]) && Answerable(ts, ds[1])
            && Receive(ts, WireAll(SentAll(ds)))
               == Received(map[5 := ClientTask(4, true, 0, [0, 0, 0, 0]), 6 := open], [], false)
  {
    hide Word, Number, WireAll, Receive;
    SmallRange();
    var open := ClientTask(4, false, 0, []);
    var ts: Tasks := map[5 := open, 6 := open];
    var x, y := Done(5, Task(8, 1, true, true, 1, [])), Done(6, Task(9, 1, true, true, 0, [1, 2, 3, 4]));
    assert SentAll([x, y]) == [Sent(x), Sent(y)];
    MisfiledStream(x, y);
    MisfiledFirst(ts, WireAll(SentAll([x, y])));
    var ts' := ts[5 := ClientTask(4, true, 0, [0, 0, 0, 0])];
    assert ts' == map[5 := ClientTask(4, true, 0, [0, 0, 0, 0]), 6 := open];
    MisfiledSecond(ts');
  }

  lemma MisfiledStream(x: Done, y: Done)
    requires x.client == 5 && x.task.retVal == [] && y.client == 6 && y.task.retVal == [1, 2, 3, 4]
    ensures WireAll([Sent(x), Sent(y)]) == [0, 0, 0, 0, 5, 0, 0, 0] + ([0, 0, 0, 0] + [6, 0, 0, 0, 1, 2, 3, 4])
  {
    SmallWord(0);
    SmallWord(5);
    SmallWord(6);
    hide Word, Number;
    assert [Sent(x), Sent(y)][1..] == [Sent(y)] && [Sent(y)][1..] == [];
    assert WireAll([Sent(y)]) == Wire(Sent(y)) + [];
  }

  lemma SmallWord(x: Byte)
    ensures Word(x, 4) == [x, 0, 0, 0] && Number([x, 0, 0, 0]) == x
  {
    assert Word(0, 0) == [] && Word(0, 1) == [0] && Word(0, 2) == [0, 0] && Word(0, 3) == [0, 0, 0];
    assert Number([]) == 0 && Number([0]) == 0 && Number([0, 0]) == 0 && Number([0, 0, 0]) == 0;
  }

  lemma MisfiledFirst(ts: Tasks, stream: Bytes)
    requires 5 in ts && ts[5] == ClientTask(4, false, 0, [])
    requires stream == [0, 0, 0, 0, 5, 0, 0, 0] + ([0, 0, 0, 0] + [6, 0, 0, 0, 1, 2, 3, 4])
    ensures Receive(ts, stream) == Receive(ts[5 := ClientTask(4, true, 0, [0, 0, 0, 0])], [6, 0, 0, 0, 1, 2, 3, 4])
  {
    SmallWord(0);
    SmallWord(5);
    hide Number;
    assert stream[..4] == [0, 0, 0, 0] && stream[4..8] == [5, 0, 0, 0];
    var rest := stream[8..];
    assert rest == [0, 0, 0, 0] + [6, 0, 0, 0, 1, 2, 3, 4];
    assert rest[..4] == [0, 0, 0, 0] && rest[4..] == [6, 0, 0, 0, 1, 2, 3, 4];
  }

  lemma MisfiledSecond(ts: Tasks)
    requires ts.Keys == {5, 6}
    ensures Receive(ts, [6, 0, 0, 0, 1, 2, 3, 4]) == Received(ts, [], false)
  {
    var stream: Bytes := [6, 0, 0, 0, 1, 2, 3, 4];
    StrangeId();
    hide Number;
    assert stream[4..8] == [1, 2, 3, 4] && stream[8..] == [];
    assert Receive(ts, []) == Received(ts, [], false);
  }

  lemma StrangeId()
    ensures Number([1, 2, 3, 4]) !in {5, 6}
  {
    var id: Bytes := [1, 2, 3, 4];
    assert Number(id) == 1 + 256 * Number(id[1..]);
    hide Number;
  }

  lemma SmallRange()
    ensures Range(4) > 6
  {
    assert Range(1) == 256 * Range(0) && Range(2) == 256 * Range(1) && Range(3) == 256 * Range(2);
  }
}
