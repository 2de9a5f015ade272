/** What an NBD connection does, as a function of the bytes it has received. */
module NbdParser {
  import opened Bits
  import opened Devices
  import opened Endian

  const REQUEST_MAGIC: seq<byte> := [0x25, 0x60, 0x95, 0x13]
  const RESPONSE_MAGIC: seq<byte> := [0x67, 0x44, 0x66, 0x98]
  const CMD_READ: seq<byte> := [0, 0, 0, 0]
  const CMD_WRITE: seq<byte> := [0, 0, 0, 1]
  const CMD_DISC: seq<byte> := [0, 0, 0, 2]
  const RESPONSE_OK: seq<byte> := [0, 0, 0, 0]
  const RESPONSE_NOK: seq<byte> := [0, 0, 0, 1]
  const MAX_LENGTH: nat := 128 * 1024

  datatype Phase = Magic | Cmd | Read | Write | WriteData

  datatype Action =
    | ReadBytes(from: nat, len: nat)
    | WriteBytes(from: nat, data: seq<byte>)
    | Sent(bytes: seq<byte>)
    | Closed
    /** A device call raised an error, which nothing catches: the program ends. */
    | Raised

  /** Everything that has happened on any socket, in order. */
  datatype Event = Event(sock: nat, act: Action)

  /** A device whose answers may depend on all that happened before; None is a failure. */
  datatype Device = Device(size: nat, answer: seq<Event> -> Option<seq<byte>>)

  datatype Extra = Extra(handle: seq<byte>, from: nat, len: nat)

  datatype Conn = Conn(phase: Phase, buffer: seq<byte>, extra: Extra, closed: bool, dead: bool, log: seq<Event>) {
    function Log(id: nat, act: Action): Conn { this.(log := log + [Event(id, act)]) }

    function Drop(n: nat): Conn
      requires n <= |buffer|
    {
      this.(buffer := buffer[n..])
    }

    function With(more: seq<byte>): Conn { this.(buffer := buffer + more) }

    function Close(id: nat): Conn { Log(id, Closed).(closed := true) }

    function Die(id: nat): Conn { Log(id, Raised).(dead := true) }

    /** Nothing more will happen on this connection. */
    predicate Over() { closed || dead }

    /** Ready for the next request, unless all is over. */
    function Next(): Conn { if dead then this else this.(phase := Magic) }
  }

  function Response(res: Option<seq<byte>>, handle: seq<byte>): seq<byte> {
    match res
    case None => RESPONSE_MAGIC + RESPONSE_NOK + handle
    case Some(data) => RESPONSE_MAGIC + RESPONSE_OK + handle + data
  }

  /** Answers a read request: the device is asked only when the range is inside it. */
  function AnswerRead(dev: Device, id: nat, c: Conn): (c': Conn) {
    var e := c.extra;
    if e.from + e.len <= dev.size then
      var asked := c.Log(id, ReadBytes(e.from, e.len));
      asked.Log(id, Sent(Response(dev.answer(asked.log), e.handle)))
    else c.Log(id, Sent(Response(None, e.handle)))
  }

  /** Answers a write request; the answer carries no data. */
  function AnswerWrite(dev: Device, id: nat, c: Conn, data: seq<byte>): (c': Conn) {
    var e := c.extra;
    if e.from + e.len <= dev.size then
      var asked := c.Log(id, WriteBytes(e.from, data));
      var res := if dev.answer(asked.log).Some? then Some([]) else None;
      asked.Log(id, Sent(Response(res, e.handle)))
    else c.Log(id, Sent(Response(None, e.handle)))
  }

  /** The device binding raises an error when it is asked for no bytes at all. */
  predicate Raises(dev: Device, e: Extra) { e.from + e.len <= dev.size && e.len == 0 }

  function DoRead(dev: Device, id: nat, c: Conn): (c': Conn) {
    if Raises(dev, c.extra) then c.Die(id) else AnswerRead(dev, id, c)
  }

  function DoWrite(dev: Device, id: nat, c: Conn, data: seq<byte>): (c': Conn) {
    if Raises(dev, c.extra) then c.Die(id) else AnswerWrite(dev, id, c, data)
  }

  /** The part of the connection an answer does not depend on. */
  lemma DoKeeps(dev: Device, id: nat, c: Conn, data: seq<byte>)
    ensures AnswerRead(dev, id, c) == c.(log := AnswerRead(dev, id, c).log)
    ensures AnswerWrite(dev, id, c, data) == c.(log := AnswerWrite(dev, id, c, data).log)
    ensures var dead' := c.dead || Raises(dev, c.extra);
      && DoRead(dev, id, c) == c.(log := DoRead(dev, id, c).log, dead := dead')
      && DoWrite(dev, id, c, data) == c.(log := DoWrite(dev, id, c, data).log, dead := dead')
  {}

  /** One round of looking at the buffer; nothing when more bytes are needed. */
  function Step(dev: Device, id: nat, c: Conn): Option<Conn> {
    var l := |c.buffer|;
    if c.Over() then None
    else match c.phase
      case Magic =>
        if l < 4 then None
        else if c.buffer[..4] != REQUEST_MAGIC then Some(c.Drop(4).Close(id))
        else Some(c.Drop(4).(phase := Cmd))
      case Cmd =>
        if l < 4 then None
        else if c.buffer[..4] == CMD_READ then Some(c.Drop(4).(phase := Read))
        else if c.buffer[..4] == CMD_WRITE then Some(c.Drop(4).(phase := Write))
        else Some(c.Drop(4).Close(id))
      case WriteData =>
        if l < c.extra.len then None
        else Some(DoWrite(dev, id, c.Drop(c.extra.len), c.buffer[..c.extra.len]).Next())
      case _ =>
        if l < 20 then None
        else
          var c1 := c.Drop(20).(extra := Header(c.buffer));
          if c1.extra.len > MAX_LENGTH then Some(c1.Close(id))
          else if c.phase == Read then Some(DoRead(dev, id, c1).Next())
          else Some(c1.(phase := WriteData))
  }

  function Header(b: seq<byte>): Extra
    requires |b| >= 20
  {
    Extra(b[..8], Unpack(b[8..16]), Unpack(b[16..20]))
  }

  function Measure(c: Conn): nat {
    2 * |c.buffer| + (if c.phase == WriteData then 1 else 0) + if c.dead then 0 else 1
  }

  lemma StepShrinks(dev: Device, id: nat, c: Conn)
    ensures Step(dev, id, c).Some? ==> Measure(Step(dev, id, c).value) < Measure(c)
  {}

  /** Everything that can be done with the bytes received so far. */
  function Run(dev: Device, id: nat, c: Conn): (c': Conn)
    ensures Step(dev, id, c').None?
    decreases Measure(c)
  {
    StepShrinks(dev, id, c);
    match Step(dev, id, c)
    case None => c
    case Some(next) => Run(dev, id, next)
  }

  /** Bytes that arrive on a closed connection are ignored, and when the program has ended none do. */
  function Feed(dev: Device, id: nat, c: Conn, chunk: seq<byte>): Conn {
    if c.Over() then c else Run(dev, id, c.With(chunk))
  }

  function FeedAll(dev: Device, id: nat, c: Conn, chunks: seq<seq<byte>>): Conn {
    if chunks == [] then c
    else Feed(dev, id, FeedAll(dev, id, c, chunks[..|chunks| - 1]), chunks[|chunks| - 1])
  }

  function Joined(chunks: seq<seq<byte>>): seq<byte> {
    if chunks == [] then [] else Joined(chunks[..|chunks| - 1]) + chunks[|chunks| - 1]
  }

  /** What is left in the buffer of a connection does not matter when all is over. */
  function Seen(c: Conn): Conn { if c.Over() then c.(buffer := []) else c }

  // ---- how the stream is split does not matter

  lemma StepMore(dev: Device, id: nat, c: Conn, more: seq<byte>)
    requires Step(dev, id, c).Some?
    ensures Step(dev, id, c.With(more)) == Some(Step(dev, id, c).value.With(more))
  {
    hide Response, Unpack;
    var b := c.buffer;
    if |b| >= 4 { assert (b + more)[..4] == b[..4] && (b + more)[4..] == b[4..] + more; }
    if |b| >= 20 {
      assert (b + more)[20..] == b[20..] + more;
      assert (b + more)[..8] == b[..8] && (b + more)[8..16] == b[8..16] && (b + more)[16..20] == b[16..20];
    }
    if |b| >= c.extra.len {
      assert (b + more)[..c.extra.len] == b[..c.extra.len] && (b + more)[c.extra.len..] == b[c.extra.len..] + more;
    }
  }

  lemma {:induction false} RunMore(dev: Device, id: nat, c: Conn, more: seq<byte>)
    ensures Seen(Run(dev, id, c.With(more))) == Seen(Feed(dev, id, Run(dev, id, c), more))
    decreases Measure(c)
  {
    hide DoRead, DoWrite;
    StepShrinks(dev, id, c);
    if Step(dev, id, c).Some? {
      StepMore(dev, id, c, more);
      RunMore(dev, id, Step(dev, id, c).value, more);
    }
  }

  lemma FeedTwice(dev: Device, id: nat, c: Conn, a: seq<byte>, b: seq<byte>)
    ensures Seen(Feed(dev, id, Feed(dev, id, c, a), b)) == Seen(Feed(dev, id, c, a + b))
  {
    hide Step, Run;
    if !c.Over() {
      RunMore(dev, id, c.With(a), b);
      assert c.With(a).With(b) == c.With(a + b) by { assert c.buffer + a + b == c.buffer + (a + b); }
    }
  }

  lemma FeedSeen(dev: Device, id: nat, c: Conn, d: Conn, chunk: seq<byte>)
    requires Seen(c) == Seen(d)
    ensures Seen(Feed(dev, id, c, chunk)) == Seen(Feed(dev, id, d, chunk))
  {
    hide Run;
  }

  lemma {:induction false} ChunksDoNotMatter(dev: Device, id: nat, c: Conn, chunks: seq<seq<byte>>)
    requires Step(dev, id, c).None?
    ensures Seen(FeedAll(dev, id, c, chunks)) == Seen(Feed(dev, id, c, Joined(chunks)))
  {
    hide Step;
    if chunks == [] {
      assert c.With([]) == c;
    } else {
      var n := |chunks| - 1;
      ChunksDoNotMatter(dev, id, c, chunks[..n]);
      FeedSeen(dev, id, FeedAll(dev, id, c, chunks[..n]), Feed(dev, id, c, Joined(chunks[..n])), chunks[n]);
      FeedTwice(dev, id, c, Joined(chunks[..n]), chunks[n]);
    }
  }

  // ---- the parser undoes the wire format

  datatype Request =
    | ReadRequest(handle: seq<byte>, from: nat, len: nat)
    | WriteRequest(handle: seq<byte>, from: nat, data: seq<byte>)
  {
    predicate Legal() {
      && |handle| == 8 && from < Pow256(8)
      && (ReadRequest? ==> len <= 0x2_0000)
      && (WriteRequest? ==> |data| <= 0x2_0000)
    }

    function Length(): nat { if ReadRequest? then len else |data| }

    /** A request for no bytes, inside the device. */
    predicate Empty(size: nat) { Length() == 0 && from <= size }
  }

  function HeaderBytes(r: Request): (s: seq<byte>)
    requires r.Legal()
    ensures |s| == 20
  {
    r.handle + Pack(8, r.from) + Pack(4, r.Length())
  }

  function Wire(r: Request): seq<byte>
    requires r.Legal()
  {
    REQUEST_MAGIC + (if r.ReadRequest? then CMD_READ else CMD_WRITE) + HeaderBytes(r)
    + if r.WriteRequest? then r.data else []
  }

  /** Magic number, command, handle, offset and length, the numbers most significant byte first, and the
      data of a write. */
  lemma WireBytes(r: Request)
    requires r.Legal()
    ensures var w := Wire(r);
      && |w| == 28 + (if r.WriteRequest? then |r.data| else 0)
      && w[..4] == [0x25, 0x60, 0x95, 0x13] && w[4..8] == [0, 0, 0, if r.ReadRequest? then 0 else 1]
      && w[8..16] == r.handle && (r.WriteRequest? ==> w[28..] == r.data)
      && IsBigEndian(w[16..24], r.from) && IsBigEndian(w[24..28], r.Length())
  {
    hide Pack, IsBigEndian;
    var w, data := Wire(r), if r.WriteRequest? then r.data else [];
    assert w[..4] == REQUEST_MAGIC && w[4..8] == if r.ReadRequest? then CMD_READ else CMD_WRITE;
    assert w[8..16] == r.handle && w[28..] == data;
    assert w[16..24] == Pack(8, r.from) && w[24..28] == Pack(4, r.Length());
    PackIsBigEndian(8, r.from);
    PackIsBigEndian(4, r.Length());
  }

  function WireAll(rs: seq<Request>): seq<byte>
    requires forall k :: 0 <= k < |rs| ==> rs[k].Legal()
  {
    if rs == [] then [] else Wire(rs[0]) + WireAll(rs[1..])
  }

  /** What a request should do, whatever way it arrived. */
  function Answered(dev: Device, id: nat, c: Conn, r: Request): Conn {
    var c1 := c.(extra := Extra(r.handle, r.from, r.Length()));
    if r.ReadRequest? then AnswerRead(dev, id, c1) else AnswerWrite(dev, id, c1, r.data)
  }

  function AnsweredAll(dev: Device, id: nat, c: Conn, rs: seq<Request>): Conn
    decreases |rs|
  {
    if rs == [] then c else AnsweredAll(dev, id, Answered(dev, id, c, rs[0]), rs[1..])
  }

  /** The bytes of an answer: magic number, code, the handle of the request, and data. */
  ghost predicate IsAnswer(b: seq<byte>, handle: seq<byte>, ok: bool, data: seq<byte>) {
    && |b| == 16 + |data| && b[..4] == [0x67, 0x44, 0x66, 0x98] && b[4..8] == [0, 0, 0, if ok then 0 else 1]
    && b[8..16] == handle && b[16..] == data
  }

  /** What a request adds to the log: inside the device the call of it, with what it asks for, and an
      answer that says whether the device succeeded, with the data of a read; outside of it a failure. */
  ghost predicate Logged(dev: Device, id: nat, log: seq<Event>, r: Request, log': seq<Event>) {
    var n := |log|;
    var last := |log'| - 1;
    && n <= last && log'[..n] == log && log'[last].sock == id && log'[last].act.Sent?
    && var sent := log'[last].act.bytes;
    if r.from + r.Length() <= dev.size then
      && last == n + 1
      && log'[n] == Event(id, match r
           case ReadRequest(_, from, len) => ReadBytes(from, len)
           case WriteRequest(_, from, data) => WriteBytes(from, data))
      && var res := dev.answer(log'[..n + 1]);
      IsAnswer(sent, r.handle, res.Some?, if r.ReadRequest? && res.Some? then res.value else [])
    else
      last == n && IsAnswer(sent, r.handle, false, [])
  }

  lemma AnsweredIsLogged(dev: Device, id: nat, c: Conn, r: Request)
    requires r.Legal()
    ensures Logged(dev, id, c.log, r, Answered(dev, id, c, r).log)
  {
    hide Pow256, Response;
    var c' := Answered(dev, id, c, r);
    var last := |c'.log| - 1;
    if r.from + r.Length() <= dev.size {
      var res := dev.answer(c'.log[..last]);
      assert c'.log[..last] == c.log + [c'.log[last - 1]];
      ResponseBytes(if r.ReadRequest? || res.None? then res else Some([]), r.handle);
    } else {
      ResponseBytes(None, r.handle);
    }
  }

  lemma ResponseBytes(res: Option<seq<byte>>, handle: seq<byte>)
    requires |handle| == 8
    ensures IsAnswer(Response(res, handle), handle, res.Some?, if res.Some? then res.value else [])
  {
    var b, data := Response(res, handle), if res.Some? then res.value else [];
    assert b[..4] == RESPONSE_MAGIC && b[4..8] == if res.Some? then RESPONSE_OK else RESPONSE_NOK;
    assert b[8..16] == handle && b[16..] == data;
  }

  lemma HeaderDecodes(r: Request, rest: seq<byte>)
    requires r.Legal()
    ensures Header(HeaderBytes(r) + rest) == Extra(r.handle, r.from, r.Length())
  {
    hide Unpack, Pack;
    var b := HeaderBytes(r) + rest;
    assert b[..8] == r.handle && b[8..16] == Pack(8, r.from) && b[16..20] == Pack(4, r.Length());
    UnpackSmall(8, r.from);
    assert Pow256(1) == 256 && Pow256(2) == 65536 && Pow256(3) == 16777216 && Pow256(4) == 4294967296;
    UnpackSmall(4, r.Length());
  }

  ghost predicate Idle(c: Conn) { !c.Over() && c.phase == Magic }

  lemma RunStep(dev: Device, id: nat, c: Conn, next: Conn)
    requires Step(dev, id, c) == Some(next)
    ensures Run(dev, id, c) == Run(dev, id, next)
  {
    hide Step;
  }

  lemma OpeningSteps(dev: Device, id: nat, c: Conn, cmd: seq<byte>, tail: seq<byte>)
    requires Idle(c) && c.buffer == REQUEST_MAGIC + (cmd + tail) && cmd in {CMD_READ, CMD_WRITE}
    ensures Run(dev, id, c) == Run(dev, id, c.(buffer := tail, phase := if cmd == CMD_READ then Read else Write))
  {
    hide DoRead, DoWrite, Header, Run;
    assert c.buffer[4..] == cmd + tail && c.buffer[..4] == REQUEST_MAGIC;
    var c1 := c.(buffer := cmd + tail, phase := Cmd);
    RunStep(dev, id, c, c1);
    assert c1.buffer[4..] == tail && c1.buffer[..4] == cmd;
    RunStep(dev, id, c1, c.(buffer := tail, phase := if cmd == CMD_READ then Read else Write));
  }

  lemma HeaderStep(dev: Device, id: nat, c: Conn, r: Request, rest: seq<byte>)
    requires !c.Over() && c.phase == (if r.ReadRequest? then Read else Write) && r.Legal()
    requires c.buffer == HeaderBytes(r) + rest
    ensures var c1 := c.(buffer := rest, extra := Extra(r.handle, r.from, r.Length()));
      Step(dev, id, c) == Some(if r.ReadRequest? then DoRead(dev, id, c1).Next() else c1.(phase := WriteData))
  {
    hide DoRead, DoWrite, Header, HeaderBytes;
    HeaderDecodes(r, rest);
    assert c.buffer[20..] == rest;
  }

  /** A request that has arrived is carried out, in the phase the parser is in by then. */
  lemma RequestArrives(dev: Device, id: nat, c: Conn, r: Request, rest: seq<byte>)
    requires Idle(c) && r.Legal() && c.buffer == Wire(r) + rest
    ensures var c1 := c.(buffer := rest, extra := Extra(r.handle, r.from, r.Length()));
      Run(dev, id, c) == Run(dev, id,
        if r.ReadRequest? then DoRead(dev, id, c1.(phase := Read)).Next()
        else DoWrite(dev, id, c1.(phase := WriteData), r.data).Next())
  {
    hide HeaderBytes, Run, Step, DoRead, DoWrite;
    var data := if r.WriteRequest? then r.data else [];
    var tail := HeaderBytes(r) + (data + rest);
    var cmd := if r.ReadRequest? then CMD_READ else CMD_WRITE;
    assert c.buffer == REQUEST_MAGIC + (cmd + tail);
    OpeningSteps(dev, id, c, cmd, tail);
    var c2 := c.(buffer := tail, phase := if r.ReadRequest? then Read else Write);
    HeaderStep(dev, id, c2, r, data + rest);
    var c1 := c.(buffer := rest, extra := Extra(r.handle, r.from, r.Length()));
    if r.ReadRequest? {
      assert data + rest == rest;
      RunStep(dev, id, c2, DoRead(dev, id, c1.(phase := Read)).Next());
    } else {
      var c3 := c1.(buffer := data + rest, phase := WriteData);
      RunStep(dev, id, c2, c3);
      DataStep(dev, id, c1.(phase := WriteData), data, rest);
      RunStep(dev, id, c3, DoWrite(dev, id, c1.(phase := WriteData), data).Next());
    }
  }

  lemma DataStep(dev: Device, id: nat, c: Conn, data: seq<byte>, rest: seq<byte>)
    requires !c.Over() && c.phase == WriteData && c.extra.len == |data| && c.buffer == rest
    ensures Step(dev, id, c.(buffer := data + rest)) == Some(DoWrite(dev, id, c, data).Next())
  {
    hide DoWrite;
    assert (data + rest)[|data|..] == rest && (data + rest)[..|data|] == data;
    assert c.(buffer := data + rest).Drop(|data|) == c;
  }

  /** It is answered, or raises. */
  lemma OneRequest(dev: Device, id: nat, c: Conn, r: Request, rest: seq<byte>)
    requires Idle(c) && r.Legal() && c.buffer == Wire(r) + rest
    ensures !r.Empty(dev.size) ==> Run(dev, id, c) == Run(dev, id, Answered(dev, id, c.(buffer := rest), r))
    ensures r.Empty(dev.size) ==> Run(dev, id, c).dead && Run(dev, id, c).log == c.log + [Event(id, Raised)]
    ensures Idle(Answered(dev, id, c.(buffer := rest), r)) && Answered(dev, id, c.(buffer := rest), r).buffer == rest
  {
    hide Wire, Run, Response;
    RequestArrives(dev, id, c, r, rest);
    if r.Empty(dev.size) {
      var c1 := c.(buffer := rest, extra := Extra(r.handle, r.from, r.Length()));
      OverStays(dev, id, c1.(phase := if r.ReadRequest? then Read else WriteData).Die(id));
    }
  }

  /** A request that arrives on its own adds to the log just that. */
  lemma RequestLogged(dev: Device, id: nat, c: Conn, r: Request)
    requires Idle(c) && c.buffer == [] && r.Legal()
    ensures var c' := Feed(dev, id, c, Wire(r));
      if r.Empty(dev.size) then c'.dead && c'.log == c.log + [Event(id, Raised)]
      else Idle(c') && c'.buffer == [] && Logged(dev, id, c.log, r, c'.log)
  {
    hide Wire, Run, Step, Logged, Answered;
    var full := c.With(Wire(r));
    assert full.buffer == Wire(r) + [];
    OneRequest(dev, id, full, r, []);
    if !r.Empty(dev.size) {
      assert full.(buffer := []) == c;
      AnsweredIsLogged(dev, id, c, r);
      IdleWaits(dev, id, Answered(dev, id, c, r));
      RunWaits(dev, id, Answered(dev, id, c, r));
    }
  }

  /** None of the requests asks for no bytes inside the device. */
  predicate NoneEmpty(rs: seq<Request>, size: nat) { forall k :: 0 <= k < |rs| ==> !rs[k].Empty(size) }

  lemma {:induction false} RequestsDecode(dev: Device, id: nat, c: Conn, rs: seq<Request>, rest: seq<byte>)
    requires Idle(c) && (forall k :: 0 <= k < |rs| ==> rs[k].Legal()) && NoneEmpty(rs, dev.size)
    requires c.buffer == WireAll(rs) + rest
    ensures Run(dev, id, c) == Run(dev, id, AnsweredAll(dev, id, c.(buffer := rest), rs))
    decreases |rs|
  {
    hide Step, Run, Answered, Wire;
    if rs == [] {
      assert c.buffer == rest;
    } else {
      var later := WireAll(rs[1..]) + rest;
      assert c.buffer == Wire(rs[0]) + later;
      OneRequest(dev, id, c, rs[0], later);
      var next := Answered(dev, id, c.(buffer := later), rs[0]);
      RequestsDecode(dev, id, next, rs[1..], rest);
      BufferAside(dev, id, c, rs[0], later, rest);
    }
  }

  lemma BufferAside(dev: Device, id: nat, c: Conn, r: Request, a: seq<byte>, b: seq<byte>)
    ensures Answered(dev, id, c.(buffer := a), r).(buffer := b) == Answered(dev, id, c.(buffer := b), r)
  {}

  lemma {:induction false} AnsweredAllIdle(dev: Device, id: nat, c: Conn, rs: seq<Request>)
    requires Idle(c)
    ensures Idle(AnsweredAll(dev, id, c, rs)) && AnsweredAll(dev, id, c, rs).buffer == c.buffer
    decreases |rs|
  {
    hide Response;
    if rs != [] { AnsweredAllIdle(dev, id, Answered(dev, id, c, rs[0]), rs[1..]); }
  }

  /** A stream of requests, cut anywhere, is answered request by request if and only if none of them
      asks for no bytes inside the device. */
  lemma StreamAnswered(dev: Device, id: nat, c: Conn, rs: seq<Request>, chunks: seq<seq<byte>>)
    requires Idle(c) && c.buffer == [] && forall k :: 0 <= k < |rs| ==> rs[k].Legal()
    requires Joined(chunks) == WireAll(rs)
    ensures FeedAll(dev, id, c, chunks) == AnsweredAll(dev, id, c, rs) <==> NoneEmpty(rs, dev.size)
  {
    hide AnsweredAll, FeedAll, Joined, WireAll, Run, Answered, Wire;
    AnsweredAllIdle(dev, id, c, rs);
    if NoneEmpty(rs, dev.size) {
      IdleWaits(dev, id, c);
      ChunksDoNotMatter(dev, id, c, chunks);
      var full := c.With(Joined(chunks));
      assert full.buffer == WireAll(rs) + [];
      assert full.(buffer := []) == c;
      RequestsDecode(dev, id, full, rs, []);
      IdleWaits(dev, id, AnsweredAll(dev, id, c, rs));
      RunWaits(dev, id, AnsweredAll(dev, id, c, rs));
    } else {
      var k := FirstEmpty(rs, dev.size);
      WireSplit(rs, k);
      StreamEnds(dev, id, c, rs[..k], rs[k], WireAll(rs[k + 1..]), chunks);
    }
  }

  /** The first request for no bytes inside the device ends the program: the requests before it were
      answered, and nothing behind it has any effect. */
  lemma StreamEnds(dev: Device, id: nat, c: Conn, rs: seq<Request>, r: Request, rest: seq<byte>, chunks: seq<seq<byte>>)
    requires Idle(c) && c.buffer == [] && (forall k :: 0 <= k < |rs| ==> rs[k].Legal()) && NoneEmpty(rs, dev.size)
    requires r.Legal() && r.Empty(dev.size) && Joined(chunks) == WireAll(rs) + (Wire(r) + rest)
    ensures FeedAll(dev, id, c, chunks).dead
    ensures FeedAll(dev, id, c, chunks).log == AnsweredAll(dev, id, c, rs).log + [Event(id, Raised)]
  {
    hide AnsweredAll, FeedAll, Joined, WireAll, Run, Step, Wire;
    IdleWaits(dev, id, c);
    ChunksDoNotMatter(dev, id, c, chunks);
    var start := c.(buffer := Wire(r) + rest);
    AnsweredAllIdle(dev, id, start, rs);
    AnsweredLog(dev, id, c, start, rs);
    RequestsDecode(dev, id, c.With(Joined(chunks)), rs, Wire(r) + rest);
    OneRequest(dev, id, AnsweredAll(dev, id, start, rs), r, rest);
  }

  /** The shortest such input: a read of no bytes at the start of any device. */
  lemma EmptyReadRaises(dev: Device, id: nat, c: Conn, handle: seq<byte>)
    requires Idle(c) && c.buffer == [] && |handle| == 8
    ensures ReadRequest(handle, 0, 0).Legal()
    ensures Feed(dev, id, c, Wire(ReadRequest(handle, 0, 0))).dead
  {
    hide Wire, Run;
    var r := ReadRequest(handle, 0, 0);
    assert Pow256(8) > 0;
    assert c.With(Wire(r)).buffer == Wire(r) + [];
    OneRequest(dev, id, c.With(Wire(r)), r, []);
  }

  lemma {:induction false} FirstEmpty(rs: seq<Request>, size: nat) returns (k: nat)
    requires !NoneEmpty(rs, size)
    ensures k < |rs| && rs[k].Empty(size) && NoneEmpty(rs[..k], size)
    decreases |rs|
  {
    if rs[0].Empty(size) {
      k := 0;
    } else {
      var j := FirstEmpty(rs[1..], size);
      k := j + 1;
      assert forall i :: 0 < i < k ==> rs[i] == rs[1..][..j][i - 1];
    }
  }

  lemma {:induction false} WireSplit(rs: seq<Request>, k: nat)
    requires k < |rs| && forall i :: 0 <= i < |rs| ==> rs[i].Legal()
    ensures WireAll(rs) == WireAll(rs[..k]) + (Wire(rs[k]) + WireAll(rs[k + 1..]))
    decreases |rs|
  {
    hide Wire;
    if k > 0 {
      WireSplit(rs[1..], k - 1);
      assert rs[1..][..k - 1] == rs[..k][1..] && rs[1..][k..] == rs[k + 1..];
    }
  }

  /** The bytes do not start a request of any size that is allowed. */
  predicate Breaks(bad: seq<byte>) {
    || (|bad| >= 4 && bad[..4] != [0x25, 0x60, 0x95, 0x13])
    || (|bad| >= 8 && bad[4..8] != [0, 0, 0, 0] && bad[4..8] != [0, 0, 0, 1])
    || (|bad| >= 28 && Unpack(bad[24..28]) > 0x2_0000)
  }

  /** A disconnect, or anything that does not start a request, closes the connection after the
      requests before it were answered, and nothing behind it has any effect. */
  lemma StreamClosed(dev: Device, id: nat, c: Conn, rs: seq<Request>, bad: seq<byte>, chunks: seq<seq<byte>>)
    requires Idle(c) && c.buffer == [] && (forall k :: 0 <= k < |rs| ==> rs[k].Legal()) && NoneEmpty(rs, dev.size)
    requires Joined(chunks) == WireAll(rs) + bad && Breaks(bad)
    ensures FeedAll(dev, id, c, chunks).closed
    ensures FeedAll(dev, id, c, chunks).log == AnsweredAll(dev, id, c, rs).log + [Event(id, Closed)]
  {
    hide AnsweredAll, FeedAll, Joined, WireAll, Run, Step, Breaks;
    IdleWaits(dev, id, c);
    ChunksDoNotMatter(dev, id, c, chunks);
    var start := c.(buffer := bad);
    AnsweredAllIdle(dev, id, start, rs);
    AnsweredLog(dev, id, c, start, rs);
    RequestsDecode(dev, id, c.With(Joined(chunks)), rs, bad);
    BadCloses(dev, id, AnsweredAll(dev, id, start, rs));
  }

  lemma IdleWaits(dev: Device, id: nat, c: Conn)
    requires Idle(c) && c.buffer == []
    ensures Step(dev, id, c).None?
  {}

  lemma {:induction false} AnsweredLog(dev: Device, id: nat, c: Conn, d: Conn, rs: seq<Request>)
    requires c.log == d.log
    ensures AnsweredAll(dev, id, c, rs).log == AnsweredAll(dev, id, d, rs).log
    decreases |rs|
  {
    hide Response;
    if rs != [] { AnsweredLog(dev, id, Answered(dev, id, c, rs[0]), Answered(dev, id, d, rs[0]), rs[1..]); }
  }

  lemma BadCloses(dev: Device, id: nat, c: Conn)
    requires Idle(c) && Breaks(c.buffer)
    ensures Run(dev, id, c).closed && Run(dev, id, c).log == c.log + [Event(id, Closed)]
  {
    hide DoRead, DoWrite, Run, Unpack;
    var b := c.buffer;
    if b[..4] != REQUEST_MAGIC {
      RunStep(dev, id, c, c.Drop(4).Close(id));
      OverStays(dev, id, c.Drop(4).Close(id));
    } else {
      var c1 := c.Drop(4).(phase := Cmd);
      RunStep(dev, id, c, c1);
      assert c1.buffer[..4] == b[4..8];
      if b[4..8] != CMD_READ && b[4..8] != CMD_WRITE {
        RunStep(dev, id, c1, c1.Drop(4).Close(id));
        OverStays(dev, id, c1.Drop(4).Close(id));
      } else {
        var c2 := c1.Drop(4).(phase := if b[4..8] == CMD_READ then Read else Write);
        RunStep(dev, id, c1, c2);
        assert c2.buffer[16..20] == b[24..28];
        var c3 := c2.Drop(20).(extra := Header(c2.buffer));
        RunStep(dev, id, c2, c3.Close(id));
        OverStays(dev, id, c3.Close(id));
      }
    }
  }

  lemma OverStays(dev: Device, id: nat, c: Conn)
    requires c.Over()
    ensures Run(dev, id, c) == c
  {}

  lemma RunWaits(dev: Device, id: nat, c: Conn)
    requires Step(dev, id, c).None?
    ensures Run(dev, id, c) == c
  {}
}
