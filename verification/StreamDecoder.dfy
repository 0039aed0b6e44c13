/**
 The thread that reads the simulator's output. A pipe hands out its bytes in chunks of any size,
 also empty ones; the thread assembles messages from them. What it delivers depends on the bytes
 alone: it is what parsing the whole stream at once gives.
 */
module StreamDecoder {
  import opened LittleEndian
  import opened SimMemory
  import opened Wrappers

  const GET_CSR: Byte := 0
  const HOST_WRITE: Byte := 1
  const IRQ: Byte := 2
  const CHECK_COMPLETED: Byte := 3

  /** The simulated memory and the queues; `failed` once the thread ended with an exception. */
  datatype Host = Host(mem: Tracker, csrs: seq<int>, interrupts: seq<(nat, int)>, counts: seq<int>, failed: bool)

  // ---------------------------------------------------------------------------------------------
  // Reference: parsing a stream that is there as a whole
  // ---------------------------------------------------------------------------------------------

  /** Bytes of the fixed part behind the type byte. */
  function Fixed(kind: Byte): nat {
    if kind == GET_CSR then 8 else if kind == HOST_WRITE then 16 else if kind == IRQ then 5 else 4
  }

  /** What a message without payload puts into a queue. */
  function Queued(h: Host, kind: Byte, body: Bytes): Host
    requires |body| == Fixed(kind)
  {
    if kind == GET_CSR then h.(csrs := h.csrs + [Signed(body)])
    else if kind == IRQ then h.(interrupts := h.interrupts + [(Number(body[..1]), Signed(body[1..]))])
    else h.(counts := h.counts + [Signed(body)])
  }

  /** The first message of a stream, if it is complete: its effect and its length. */
  function Parse(h: Host, s: Bytes): (p: Option<(Host, nat)>)
    ensures p.Some? ==> 0 < p.value.1 <= |s|
  {
    if s == [] then None
    else if s[0] > CHECK_COMPLETED then Some((h.(failed := true), 1))
    else if |s| < 1 + Fixed(s[0]) then None
    else
      var n := 1 + Fixed(s[0]);
      var body := s[1..n];
      if s[0] != HOST_WRITE then Some((Queued(h, s[0], body), n))
      else
        var v, len := Signed(body[..8]), Signed(body[8..]);
        if Containing(h.mem, v, len).None? then Some((h.(failed := true), n))
        else if len <= 0 then Some((h, n))
        else if |s| < n + len then None
        else Some((h.(mem := Written(h.mem, v, s[n..n + len])), n + len))
  }

  /** All complete messages of a stream, up to the first failure. */
  function Decode(h: Host, s: Bytes): Host
    decreases |s|
  {
    var p := Parse(h, s);
    if h.failed || p.None? then h else Decode(p.value.0, s[p.value.1..])
  }

  /** A complete message is not read differently when more bytes follow it. */
  lemma ParseExtends(h: Host, s: Bytes, t: Bytes)
    requires Parse(h, s).Some?
    ensures Parse(h, s + t) == Parse(h, s)
  {
    var u := s + t;
    assert u[0] == s[0];
    if s[0] <= CHECK_COMPLETED {
      var n := 1 + Fixed(s[0]);
      assert u[1..n] == s[1..n];
      if s[0] == HOST_WRITE {
        var len := Signed(s[1..n][8..]);
        if 0 < len && n + len <= |s| { assert u[n..n + len] == s[n..n + len]; }
      }
    }
  }

  lemma DecodeStep(h: Host, s: Bytes, h': Host, t: Bytes)
    requires !h.failed && Parse(h, s) == Some((h', |s|))
    ensures Decode(h, s + t) == Decode(h', t)
  {
    ParseExtends(h, s, t);
    assert (s + t)[|s|..] == t;
  }

  // ---------------------------------------------------------------------------------------------
  // The thread
  // ---------------------------------------------------------------------------------------------

  /** How many reads are allowed to return something. */
  function Positive(sizes: seq<nat>): nat {
    if sizes == [] then 0 else (if sizes[0] > 0 then 1 else 0) + Positive(sizes[1..])
  }

  /** The bytes handed out between two states of a pipe. */
  ghost function Taken(before: Bytes, after: Bytes): Bytes
    requires |after| <= |before|
  {
    before[..|before| - |after|]
  }

  class OutputThread {
    /** Bytes still in the pipe, and how many each of the next reads may return. */
    var rest: Bytes
    var sizes: seq<nat>
    var host: Host

    constructor (mem: Tracker, stream: Bytes, sizes: seq<nat>)
      ensures rest == stream && this.sizes == sizes && host == Host(mem, [], [], [], false)
    {
      rest, this.sizes, host := stream, sizes, Host(mem, [], [], [], false);
    }

    /** One read of a pipe: at most `n` bytes, perhaps none. */
    method Read(n: nat) returns (chunk: Bytes)
      requires sizes != [] && n > 0
      modifies this`rest, this`sizes
      ensures |chunk| <= n && chunk + rest == old(rest) && sizes == old(sizes)[1..]
      ensures Positive(old(sizes)) >= |old(rest)| ==> Positive(sizes) >= |rest|
    {
      var k := if sizes[0] < n then sizes[0] else n;
      k := if k < |rest| then k else |rest|;
      chunk, rest, sizes := rest[..k], rest[k..], sizes[1..];
    }

    /** Reads until `n` bytes are there; `None` while the reads so far do not suffice. */
    method ReadExactly(n: int) returns (r: Option<Bytes>)
      modifies this`rest, this`sizes
      ensures |rest| <= |old(rest)| && old(rest) == Taken(old(rest), rest) + rest
      ensures r.Some? ==> Taken(old(rest), rest) == r.value && |r.value| == if n > 0 then n else 0
      ensures r.None? ==> |Taken(old(rest), rest)| < n && sizes == []
      ensures Positive(old(sizes)) >= |old(rest)| ==> Positive(sizes) >= |rest|
    {
      var buffer: Bytes := [];
      while sizes != [] && |buffer| < n
        invariant buffer + rest == old(rest) && (|buffer| <= n || buffer == [])
        invariant Positive(old(sizes)) >= |old(rest)| ==> Positive(sizes) >= |rest|
        decreases |sizes|
      {
        var chunk := Read(n - |buffer|);
        if chunk == [] { continue; }
        buffer := buffer + chunk;
      }
      assert Taken(old(rest), rest) == buffer;
      return if |buffer| < n then None else Some(buffer);
    }

    /** A message whose type byte is read and whose fixed part is all of it. */
    method ReadQueued(kind: Byte) returns (waiting: bool)
      requires !host.failed && kind <= CHECK_COMPLETED && kind != HOST_WRITE
      modifies this
      ensures |rest| <= |old(rest)| && old(rest) == Taken(old(rest), rest) + rest
      ensures var s := [kind] + Taken(old(rest), rest);
              Parse(old(host), s) == if waiting then None else Some((host, |s|))
      ensures waiting ==> host == old(host) && sizes == []
      ensures Positive(old(sizes)) >= |old(rest)| ==> Positive(sizes) >= |rest|
    {
      hide Parse, Positive, Signed, Number, Taken;
      var data := ReadExactly(Fixed(kind));
      ghost var body := Taken(old(rest), rest);
      if data.None? {
        FixedMissing(host, kind, body);
        return true;
      }
      ParseQueued(host, kind, body);
      if kind == GET_CSR {
        host := host.(csrs := host.csrs + [Signed(data.value)]);
      } else if kind == IRQ {
        var pid, value := Number(data.value[..1]), Signed(data.value[1..]);
        host := host.(interrupts := host.interrupts + [(pid, value)]);
      } else {
        host := host.(counts := host.counts + [Signed(data.value)]);
      }
      return false;
    }

    /** A write to host memory: header, bound check, payload. */
    method ReadHostWrite() returns (waiting: bool)
      requires !host.failed
      modifies this
      ensures |rest| <= |old(rest)| && old(rest) == Taken(old(rest), rest) + rest
      ensures var s := [HOST_WRITE] + Taken(old(rest), rest);
              Parse(old(host), s) == if waiting then None else Some((host, |s|))
      ensures waiting ==> host == old(host) && sizes == []
      ensures Positive(old(sizes)) >= |old(rest)| ==> Positive(sizes) >= |rest|
    {
      hide Parse, Written, Signed, Containing, Positive;
      var header := ReadExactly(16);
      if header.None? {
        FixedMissing(host, HOST_WRITE, Taken(old(rest), rest));
        return true;
      }
      var v, len := Signed(header.value[..8]), Signed(header.value[8..]);
      if Containing(host.mem, v, len).None? {
        ParseHostWrite(host, header.value, []);
        assert [HOST_WRITE] + header.value == [HOST_WRITE] + header.value + [];
        host := host.(failed := true);
        return false;
      }
      label payload:
      var data := ReadExactly(len);
      ghost var body := Taken(old@payload(rest), rest);
      TakenTwice(old(rest), old@payload(rest), rest);
      hide Taken;
      ParseHostWrite(host, header.value, body);
      assert [HOST_WRITE] + (header.value + body) == [HOST_WRITE] + header.value + body;
      if data.None? { return true; }
      if data.value == [] { return false; }
      host := host.(mem := Written(host.mem, v, data.value));
      return false;
    }

    /** One round of the thread's loop: the type byte, then the reader for that type. */
    method ReadMessage() returns (waiting: bool)
      requires !host.failed
      modifies this
      ensures |rest| <= |old(rest)| && old(rest) == Taken(old(rest), rest) + rest
      ensures var s := Taken(old(rest), rest);
              Parse(old(host), s) == if waiting then None else Some((host, |s|))
      ensures waiting ==> host == old(host) && sizes == []
      ensures Positive(old(sizes)) >= |old(rest)| ==> Positive(sizes) >= |rest|
    {
      hide Parse, Positive;
      var byte := ReadExactly(1);
      if byte.None? {
        NothingThere(host);
        assert Taken(old(rest), rest) == [];
        return true;
      }
      var kind := byte.value[0];
      assert byte.value == [kind];
      ghost var tail := rest;
      assert Taken(old(rest), tail) == [kind];
      hide Taken;
      waiting := false;
      if kind > CHECK_COMPLETED {
        host := host.(failed := true);
        UnknownKind(old(host), kind);
        NothingTaken(tail);
      } else if kind == HOST_WRITE {
        waiting := ReadHostWrite();
      } else {
        waiting := ReadQueued(kind);
      }
      TakenTwice(old(rest), tail, rest);
    }

    /** What is delivered is the decoding of the bytes taken, however the reads cut the stream. */
    method ReadSimulationOutput()
      requires !host.failed
      modifies this
      ensures |rest| <= |old(rest)| && old(rest) == Taken(old(rest), rest) + rest
      ensures host == Decode(old(host), Taken(old(rest), rest))
      ensures !host.failed ==> sizes == []
      ensures Positive(old(sizes)) >= |old(rest)| && !host.failed ==> rest == []
    {
      hide Parse, Decode, Reaches, Positive;
      ghost var done: Bytes := [];
      Started(host);
      while !host.failed
        invariant done + rest == old(rest)
        invariant Reaches(old(host), done, host)
        invariant Positive(old(sizes)) >= |old(rest)| ==> Positive(sizes) >= |rest|
        decreases |rest|
      {
        ghost var h, before := host, rest;
        var waiting := ReadMessage();
        ghost var s := Taken(before, rest);
        assert Taken(old(rest), rest) == done + s;
        if waiting {
          NoReads();
          Waiting(old(host), done, h, s);
          return;
        }
        Advance(old(host), done, h, s, host);
        done := done + s;
      }
      assert Taken(old(rest), rest) == done;
      Finished(old(host), done, host);
    }
  }

  /** After `done` the decoder that began at `h0` is at `h`, whatever follows. */
  ghost predicate Reaches(h0: Host, done: Bytes, h: Host) {
    forall t: Bytes :: Decode(h0, done + t) == Decode(h, t)
  }

  lemma TakenTwice(a: Bytes, b: Bytes, c: Bytes)
    requires |c| <= |b| <= |a| && a == Taken(a, b) + b && b == Taken(b, c) + c
    ensures Taken(a, c) == Taken(a, b) + Taken(b, c) && a == Taken(a, c) + c
  {
  }

  lemma FixedMissing(h: Host, kind: Byte, part: Bytes)
    requires kind <= CHECK_COMPLETED && |part| < Fixed(kind)
    ensures Parse(h, [kind] + part).None?
  {
  }

  lemma ParseQueued(h: Host, kind: Byte, body: Bytes)
    requires kind <= CHECK_COMPLETED && kind != HOST_WRITE && |body| == Fixed(kind)
    ensures Parse(h, [kind] + body) == Some((Queued(h, kind, body), 1 + |body|))
  {
    hide Queued;
    assert ([kind] + body)[1..1 + |body|] == body;
  }

  /** A host write of which the header and some of the payload are there. */
  lemma ParseHostWrite(h: Host, header: Bytes, body: Bytes)
    requires |header| == 16
    ensures var v, len := Signed(header[..8]), Signed(header[8..]);
            var p := Parse(h, [HOST_WRITE] + header + body);
            && (Containing(h.mem, v, len).None? ==> p == Some((h.(failed := true), 17)))
            && (Containing(h.mem, v, len).Some? && len <= 0 ==> p == Some((h, 17)))
            && (Containing(h.mem, v, len).Some? && |body| < len ==> p == None)
            && (Containing(h.mem, v, len).Some? && 0 < len && |body| == len ==>
                  p == Some((h.(mem := Written(h.mem, v, body)), 17 + len)))
  {
    var s := [HOST_WRITE] + header + body;
    assert s[1..17] == header;
    assert s[17..] == body;
    assert s[17..17 + |body|] == body;
    hide Written, Signed, Containing;
  }

  lemma NothingThere(h: Host)
    ensures Parse(h, []).None?
  {
  }

  lemma NothingTaken(s: Bytes)
    ensures Taken(s, s) == []
  {
  }

  lemma UnknownKind(h: Host, kind: Byte)
    requires kind > CHECK_COMPLETED
    ensures Parse(h, [kind]) == Some((h.(failed := true), 1))
  {
  }

  lemma NoReads()
    ensures Positive([]) == 0
  {
  }

  lemma Started(h: Host)
    ensures Reaches(h, [], h)
  {
    hide Decode;
    assert forall t: Bytes :: [] + t == t;
  }

  /** An incomplete message at the end delivers nothing. */
  lemma Waiting(h0: Host, done: Bytes, h: Host, s: Bytes)
    requires !h.failed && Parse(h, s).None? && Reaches(h0, done, h)
    ensures Decode(h0, done + s) == h
  {
    assert Decode(h, s) == h;
  }

  lemma Advance(h0: Host, done: Bytes, h: Host, s: Bytes, h': Host)
    requires !h.failed && Parse(h, s) == Some((h', |s|)) && Reaches(h0, done, h)
    ensures Reaches(h0, done + s, h')
  {
    hide Decode, Parse;
    forall t: Bytes ensures Decode(h0, (done + s) + t) == Decode(h', t) {
      assert (done + s) + t == done + (s + t);
      DecodeStep(h, s, h', t);
    }
  }

  lemma Finished(h0: Host, done: Bytes, h: Host)
    requires h.failed && Reaches(h0, done, h)
    ensures Decode(h0, done) == h
  {
    assert done + [] == done && Decode(h, []) == h;
  }

  // ---------------------------------------------------------------------------------------------
  // What the simulator sends
  // ---------------------------------------------------------------------------------------------

  datatype Message =
    | Csr(value: int)
    | HostWrite(vaddr: int, data: Bytes)
    | Interrupt(pid: Byte, value: int)
    | Completed(count: int)

  /** `x` fits into `k` signed bytes. */
  predicate Fits(x: int, k: nat) { 0 <= 2 * x + Range(k) < 2 * Range(k) }

  predicate Sendable(g: Message) {
    match g
    case Csr(value) => Fits(value, 8)
    case HostWrite(vaddr, data) => Fits(vaddr, 8) && Fits(|data|, 8)
    case Interrupt(_, value) => Fits(value, 4)
    case Completed(count) => Fits(count, 4)
  }

  function Sent(g: Message): Bytes
    requires Sendable(g)
  {
    match g
    case Csr(value) => [GET_CSR] + SignedWord(value, 8)
    case HostWrite(vaddr, data) => [HOST_WRITE] + SignedWord(vaddr, 8) + SignedWord(|data|, 8) + data
    case Interrupt(pid, value) => [IRQ, pid] + SignedWord(value, 4)
    case Completed(count) => [CHECK_COMPLETED] + SignedWord(count, 4)
  }

  function Delivered(h: Host, g: Message): Host {
    match g
    case Csr(value) => h.(csrs := h.csrs + [value])
    case HostWrite(vaddr, data) =>
      if Containing(h.mem, vaddr, |data|).None? then h.(failed := true)
      else if data == [] then h else h.(mem := Written(h.mem, vaddr, data))
    case Interrupt(pid, value) => h.(interrupts := h.interrupts + [(pid, value)])
    case Completed(count) => h.(counts := h.counts + [count])
  }

  function SentAll(gs: seq<Message>): Bytes
    requires forall g :: g in gs ==> Sendable(g)
  {
    if gs == [] then [] else Sent(gs[0]) + SentAll(gs[1..])
  }

  function DeliveredAll(h: Host, gs: seq<Message>): Host
    decreases |gs|
  {
    if h.failed || gs == [] then h else DeliveredAll(Delivered(h, gs[0]), gs[1..])
  }

  /** One message survives the wire; an unallocated write leaves its payload behind. */
  lemma ParseSent(h: Host, g: Message, t: Bytes)
    requires !h.failed && Sendable(g)
    ensures var p := Parse(h, Sent(g) + t);
            p.Some? && p.value.0 == Delivered(h, g) && (!p.value.0.failed ==> p.value.1 == |Sent(g)|)
  {
    hide Signed, SignedWord, Written, Containing;
    var s := Sent(g) + t;
    match g {
      case Csr(value) =>
        SignedRoundTrip(value, 8);
        assert s[1..9] == SignedWord(value, 8);
      case HostWrite(vaddr, data) =>
        SentHostWrite(h, vaddr, data, t);
      case Interrupt(pid, value) =>
        SignedRoundTrip(value, 4);
        assert s[1..6] == [pid] + SignedWord(value, 4);
        assert s[1..6][..1] == [pid] && s[1..6][1..] == SignedWord(value, 4);
        assert Number([pid]) == pid;
      case Completed(count) =>
        SignedRoundTrip(count, 4);
        assert s[1..5] == SignedWord(count, 4);
    }
  }

  lemma SentHostWrite(h: Host, vaddr: int, data: Bytes, t: Bytes)
    requires !h.failed && Fits(vaddr, 8) && Fits(|data|, 8)
    ensures var g := HostWrite(vaddr, data); var p := Parse(h, Sent(g) + t);
            p.Some? && p.value.0 == Delivered(h, g) && (!p.value.0.failed ==> p.value.1 == |Sent(g)|)
  {
    var g := HostWrite(vaddr, data);
    var header := SignedWord(vaddr, 8) + SignedWord(|data|, 8);
    SignedRoundTrip(vaddr, 8);
    SignedRoundTrip(|data|, 8);
    assert header[..8] == SignedWord(vaddr, 8) && header[8..] == SignedWord(|data|, 8);
    assert Sent(g) == [HOST_WRITE] + header + data;
    hide Signed, SignedWord, Written, Containing, Parse;
    ParseHostWrite(h, header, data);
    ParseExtends(h, Sent(g), t);
  }

  /** Decoding what was sent delivers the messages one by one. */
  lemma {:induction false} RoundTrip(h: Host, gs: seq<Message>)
    requires forall g :: g in gs ==> Sendable(g)
    ensures Decode(h, SentAll(gs)) == DeliveredAll(h, gs)
    decreases |gs|
  {
    if gs == [] || h.failed {
      assert gs == [] ==> Parse(h, SentAll(gs)).None?;
    } else {
      hide Parse, Delivered, Sent;
      var s := Sent(gs[0]) + SentAll(gs[1..]);
      var h' := Delivered(h, gs[0]);
      ParseSent(h, gs[0], SentAll(gs[1..]));
      var n := Parse(h, s).value.1;
      assert Decode(h, s) == Decode(h', s[n..]);
      if !h'.failed {
        assert s[n..] == SentAll(gs[1..]);
      }
      RoundTrip(h', gs[1..]);
    }
  }

  /** The format on the wire, message by message: type byte, fields with the least significant byte first. */
  lemma FormatExamples(h: Host)
    requires !h.failed
    ensures Decode(h, [0, 2, 1, 0, 0, 0, 0, 0, 0]) == h.(csrs := h.csrs + [258])
    ensures Decode(h, [2, 7, 255, 255, 255, 255]) == h.(interrupts := h.interrupts + [(7, -1)])
    ensures Decode(h, [3, 5, 0, 0, 0]) == h.(counts := h.counts + [5])
    ensures Decode(h, [4]) == h.(failed := true)
  {
    hide Decode, Parse, Queued;
    var a: Bytes, b: Bytes, c: Bytes := [2, 1, 0, 0, 0, 0, 0, 0], [7, 255, 255, 255, 255], [5, 0, 0, 0];
    ExampleNumbers();
    assert [0] + a == [0, 2, 1, 0, 0, 0, 0, 0, 0] && [2] + b == [2, 7, 255, 255, 255, 255];
    assert [3] + c == [3, 5, 0, 0, 0];
    assert b[..1] == [7] && b[1..] == [255, 255, 255, 255];
    QueuedExample(h, GET_CSR, a);
    QueuedExample(h, IRQ, b);
    QueuedExample(h, CHECK_COMPLETED, c);
    assert Queued(h, GET_CSR, a) == h.(csrs := h.csrs + [258]) by { QueuedAs(h, a, b, c); }
    assert Queued(h, IRQ, b) == h.(interrupts := h.interrupts + [(7, -1)]) by { QueuedAs(h, a, b, c); }
    assert Queued(h, CHECK_COMPLETED, c) == h.(counts := h.counts + [5]) by { QueuedAs(h, a, b, c); }
    UnknownKind(h, 4);
    OneMessage(h, [4], h.(failed := true));
  }

  /** A host write on the wire: address, length, payload; the payload lands at the address. */
  lemma WriteFormat(h: Host, v: nat, data: Bytes)
    requires !h.failed && 2 * v < Range(8) && 2 * |data| < Range(8) && data != []
    requires Containing(h.mem, v, |data|).Some?
    ensures Decode(h, [1] + Word(v, 8) + Word(|data|, 8) + data) == h.(mem := Written(h.mem, v, data))
  {
    hide Word, Written, Containing, Parse, Range, Decode;
    var g := HostWrite(v, data);
    assert Sent(g) == [1] + Word(v, 8) + Word(|data|, 8) + data;
    ParseSent(h, g, []);
    assert Sent(g) + [] == Sent(g);
    OneMessage(h, Sent(g), Delivered(h, g));
  }

  lemma QueuedAs(h: Host, a: Bytes, b: Bytes, c: Bytes)
    requires |a| == 8 && |b| == 5 && |c| == 4
    ensures Queued(h, GET_CSR, a) == h.(csrs := h.csrs + [Signed(a)])
    ensures Queued(h, IRQ, b) == h.(interrupts := h.interrupts + [(Number(b[..1]), Signed(b[1..]))])
    ensures Queued(h, CHECK_COMPLETED, c) == h.(counts := h.counts + [Signed(c)])
  {
    hide Signed, Number;
  }

  lemma QueuedExample(h: Host, kind: Byte, body: Bytes)
    requires !h.failed && kind <= CHECK_COMPLETED && kind != HOST_WRITE && |body| == Fixed(kind)
    ensures Decode(h, [kind] + body) == Queued(h, kind, body)
  {
    hide Decode, Parse, Queued;
    ParseQueued(h, kind, body);
    OneMessage(h, [kind] + body, Queued(h, kind, body));
  }

  lemma OneMessage(h: Host, s: Bytes, h': Host)
    requires !h.failed && Parse(h, s) == Some((h', |s|))
    ensures Decode(h, s) == h'
  {
    hide Parse;
    DecodeStep(h, s, h', []);
    assert s + [] == s;
    NothingThere(h');
  }

  lemma ExampleNumbers()
    ensures Signed([2, 1, 0, 0, 0, 0, 0, 0]) == 258 && Signed([255, 255, 255, 255]) == -1 && Signed([5, 0, 0, 0]) == 5
    ensures Number([7]) == 7
  {
    assert Number([7]) == 7 && Range(2) == 0x1_0000 && Range(4) == 0x1_0000_0000;
    assert Range(6) == 0x1_0000_0000_0000 && Range(8) > 0x1_0000_0000_0000;
    hide Number, Range;
    PositiveExamples();
    AllOnes();
  }

  lemma PositiveExamples()
    ensures Number([2, 1, 0, 0, 0, 0, 0, 0]) == 258 && Number([5, 0, 0, 0]) == 5
  {
    assert Number([0]) == 0 && Number([0, 0]) == 0 && Number([0, 0, 0]) == 0 && Number([0, 0, 0, 0]) == 0;
    assert Number([0, 0, 0, 0, 0]) == 0 && Number([0, 0, 0, 0, 0, 0]) == 0;
    assert Number([1, 0, 0, 0, 0, 0, 0]) == 1;
  }

  lemma AllOnes()
    ensures Number([255, 255, 255, 255]) == 0xFFFF_FFFF
  {
    assert Number([255]) == 255 && Number([255, 255]) == 0xFFFF && Number([255, 255, 255]) == 0xFF_FFFF;
  }

  // ---------------------------------------------------------------------------------------------
  // What the host memory becomes
  // ---------------------------------------------------------------------------------------------

  lemma SameRanges(m: Tracker, m': Tracker, w: int, size: int)
    requires m'.addresses == m.addresses
    requires forall k :: 0 <= k < |m.addresses| ==> End(m', k) == End(m, k)
    ensures Containing(m', w, size) == Containing(m, w, size)
  {
    hide End;
  }

  /** A write changes bytes, not which ranges are allocated. */
  lemma WrittenContaining(m: Tracker, v: int, data: Bytes, w: int, size: int)
    requires Wf(m)
    ensures Wf(Written(m, v, data)) && Containing(Written(m, v, data), w, size) == Containing(m, w, size)
  {
    hide Wf, Stored, Containing, Flat;
    if Written(m, v, data) != m {
      var i := Containing(m, v, |data|).value;
      StoredShape(m, i, v, data);
      SameRanges(m, Stored(m, i, v, data), w, size);
    }
  }

  /** Every host write of a run of messages hits memory that is allocated when the run begins. */
  ghost predicate Lands(m: Tracker, gs: seq<Message>) {
    forall i :: 0 <= i < |gs| && gs[i].HostWrite? ==> Containing(m, gs[i].vaddr, |gs[i].data|).Some?
  }

  /** The last byte written to an address, or what was there before. */
  ghost function LastByte(m: Tracker, gs: seq<Message>, a: int): Option<Byte>
    decreases |gs|
  {
    if gs == [] then Flat(m, a) else
      var g := gs[|gs| - 1];
      if Hits(g, a) then Some(g.data[a - g.vaddr])
      else LastByte(m, gs[..|gs| - 1], a)
  }

  ghost predicate Hits(g: Message, a: int) { g.HostWrite? && g.vaddr <= a < g.vaddr + |g.data| }

  lemma OneWrite(h: Host, gs: seq<Message>, a: int)
    requires !h.failed && Wf(h.mem) && gs != [] && Lands(h.mem, gs)
    ensures var h' := Delivered(h, gs[0]);
            && !h'.failed && Wf(h'.mem) && Lands(h'.mem, gs[1..])
            && Flat(h'.mem, a) == if Hits(gs[0], a) then Some(gs[0].data[a - gs[0].vaddr]) else Flat(h.mem, a)
  {
    hide Wf, Flat, Containing, Written;
    if gs[0].HostWrite? {
      var v, data := gs[0].vaddr, gs[0].data;
      if data != [] {
        ContainingIff(h.mem, v, |data|);
        WrittenFlat(h.mem, v, data, a);
      }
      forall i | 0 <= i < |gs[1..]| && gs[1..][i].HostWrite?
        ensures Containing(Delivered(h, gs[0]).mem, gs[1..][i].vaddr, |gs[1..][i].data|).Some?
      {
        WrittenContaining(h.mem, v, data, gs[1 + i].vaddr, |gs[1 + i].data|);
      }
    }
  }

  lemma {:induction false} LastByteFirst(m: Tracker, gs: seq<Message>, m1: Tracker, a: int)
    requires gs != []
    requires Flat(m1, a) == if Hits(gs[0], a) then Some(gs[0].data[a - gs[0].vaddr]) else Flat(m, a)
    ensures LastByte(m, gs, a) == LastByte(m1, gs[1..], a)
    decreases |gs|
  {
    hide Flat;
    var n := |gs| - 1;
    if n > 0 {
      LastByteFirst(m, gs[..n], m1, a);
      assert gs[1..][..n - 1] == gs[..n][1..];
    }
  }

  /** No message fails, every one is delivered, and memory holds what was written last. */
  lemma {:induction false} HostWritesLand(h: Host, gs: seq<Message>, a: int)
    requires !h.failed && Wf(h.mem) && Lands(h.mem, gs)
    ensures var h' := DeliveredAll(h, gs);
            !h'.failed && Wf(h'.mem) && Flat(h'.mem, a) == LastByte(h.mem, gs, a)
    decreases |gs|
  {
    if gs != [] {
      var h1 := Delivered(h, gs[0]);
      OneWrite(h, gs, a);
      HostWritesLand(h1, gs[1..], a);
      LastByteFirst(h.mem, gs, h1.mem, a);
    }
  }
}
