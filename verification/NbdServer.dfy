/** The server: tables of parser states, buffers and request fields, by socket. */
module NbdServing {
  import opened Bits
  import opened Devices
  import opened Endian
  import opened NbdParser

  const PASSWORD: seq<byte> := [0x4e, 0x42, 0x44, 0x4d, 0x41, 0x47, 0x49, 0x43]
  const INIT_MAGIC: seq<byte> := [0x00, 0x00, 0x42, 0x02, 0x81, 0x86, 0x12, 0x53]

  function Greeting(id: nat, size: nat): seq<Event> {
    [Event(id, Sent(PASSWORD)), Event(id, Sent(INIT_MAGIC)),
     Event(id, Sent(Pack(8, size))), Event(id, Sent(seq(128, _ => 0)))]
  }

  /** Greetings are 152 bytes: the word NBDMAGIC, a second magic number, the size, and zeros. */
  lemma GreetingBytes(id: nat, size: nat)
    ensures var g := Greeting(id, size);
      && |g| == 4 && (forall k :: 0 <= k < 4 ==> g[k].sock == id && g[k].act.Sent?)
      && g[0].act.bytes == [0x4e, 0x42, 0x44, 0x4d, 0x41, 0x47, 0x49, 0x43]
      && g[1].act.bytes == [0, 0, 0x42, 0x02, 0x81, 0x86, 0x12, 0x53]
      && |g[2].act.bytes| == 8 && IsBigEndian(g[2].act.bytes, size)
      && |g[3].act.bytes| == 128 && forall i :: 0 <= i < 128 ==> g[3].act.bytes[i] == 0
  {
    hide Pack, IsBigEndian;
    PackIsBigEndian(8, size);
  }

  /** More bytes are needed before anything can happen. */
  ghost predicate Waiting(phase: Phase, buffer: seq<byte>, extra: Extra) {
    |buffer| < match phase case Magic => 4 case Cmd => 4 case WriteData => extra.len case _ => 20
  }

  lemma WaitingIsNoStep(dev: Device, id: nat, c: Conn)
    ensures Step(dev, id, c).None? <==> c.Over() || Waiting(c.phase, c.buffer, c.extra)
  {
    hide DoRead, DoWrite, Header;
  }

  lemma OthersClosed(a: set<nat>, b: set<nat>, id: nat)
    requires a - {id} == b - {id}
    ensures forall k :: k != id ==> (k in a <==> k in b)
  {
    forall k | k != id
      ensures k in a <==> k in b
    {
      assert k in a - {id} <==> k in b - {id};
    }
  }

  lemma Stopped(dev: Device, id: nat, c: Conn, c': Conn)
    requires Step(dev, id, c) == Some(c') && c'.Over()
    ensures Run(dev, id, c) == c'
  {
    hide Step;
    RunStep(dev, id, c, c');
    OverStays(dev, id, c');
  }

  class Server {
    const dev: Device
    var states: map<nat, Phase>
    var buffers: map<nat, seq<byte>>
    var extra: map<nat, Extra>
    var closed: set<nat>
    /** An error was raised that nothing catches: the program has ended, for every socket. */
    var dead: bool
    var log: seq<Event>

    constructor (dev: Device)
      ensures this.dev == dev && Valid() && states == map[] && closed == {} && !dead && log == []
    {
      this.dev := dev;
      states, buffers, extra, closed, dead, log := map[], map[], map[], {}, false, [];
    }

    ghost predicate Valid()
      reads this
    {
      && states.Keys == buffers.Keys == extra.Keys
      && (!dead ==> forall id :: id in states && id !in closed ==> Waiting(states[id], buffers[id], extra[id]))
    }

    predicate Connected(id: nat)
      reads this
    {
      id in states && id in buffers && id in extra
    }

    function At(id: nat): Conn
      reads this
      requires Connected(id)
    {
      Conn(states[id], buffers[id], extra[id], id in closed, dead, log)
    }

    ghost predicate OnlyChanged(id: nat, s: map<nat, Phase>, b: map<nat, seq<byte>>, e: map<nat, Extra>, c: set<nat>)
      reads this
      requires Connected(id)
    {
      && states == s[id := states[id]] && buffers == b[id := buffers[id]] && extra == e[id := extra[id]]
      && closed - {id} == c - {id}
    }

    method ResetState(id: nat)
      modifies this
      ensures Connected(id) && OnlyChanged(id, old(states), old(buffers), old(extra), old(closed))
      ensures closed == old(closed)
      ensures At(id) == Conn(Magic, [], Extra([], 0, 0), id in closed, old(dead), old(log))
    {
      states, buffers, extra := states[id := Magic], buffers[id := []], extra[id := Extra([], 0, 0)];
    }

    method Write(id: nat, bytes: seq<byte>)
      modifies this`log
      ensures log == old(log) + [Event(id, Sent(bytes))]
    {
      log := log + [Event(id, Sent(bytes))];
    }

    method Close(id: nat)
      modifies this`log, this`closed
      ensures closed == old(closed) + {id} && log == old(log) + [Event(id, Closed)]
    {
      closed, log := closed + {id}, log + [Event(id, Closed)];
    }

    /** The device binding: asking for no bytes is an error, which ends the program. */
    method Ask(id: nat, act: Action, len: nat) returns (raised: bool, res: Option<seq<byte>>)
      modifies this`log, this`dead
      ensures raised == (len == 0)
      ensures if raised then log == old(log) + [Event(id, Raised)] && dead
              else log == old(log) + [Event(id, act)] && dead == old(dead) && res == dev.answer(log)
    {
      raised, res := len == 0, None;
      if raised {
        log, dead := log + [Event(id, Raised)], true;
      } else {
        log := log + [Event(id, act)];
        res := dev.answer(log);
      }
    }

    method Nibble(id: nat, len: nat) returns (ret: seq<byte>)
      requires Connected(id) && |buffers[id]| >= len
      modifies this`buffers
      ensures Connected(id) && ret == old(buffers[id])[..len] && At(id) == old(At(id)).Drop(len)
      ensures buffers == old(buffers)[id := buffers[id]]
    {
      ret := buffers[id][..len];
      buffers := buffers[id := buffers[id][len..]];
    }

    method ReadRequest(id: nat)
      requires Connected(id) && !dead
      modifies this`log, this`dead
      ensures Connected(id) && At(id) == DoRead(dev, id, old(At(id)))
    {
      var e := extra[id];
      var res: Option<seq<byte>> := None;
      if e.from + e.len <= dev.size {
        var raised;
        raised, res := Ask(id, ReadBytes(e.from, e.len), e.len);
        if raised { return; }
      }
      var r := RESPONSE_MAGIC;
      r := r + if res.Some? then RESPONSE_OK else RESPONSE_NOK;
      r := r + e.handle;
      if res.Some? { r := r + res.value; }
      Write(id, r);
    }

    method WriteRequest(id: nat, data: seq<byte>)
      requires Connected(id) && !dead && |data| == extra[id].len
      modifies this`log, this`dead
      ensures Connected(id) && At(id) == DoWrite(dev, id, old(At(id)), data)
    {
      var e := extra[id];
      var res := false;
      if e.from + e.len <= dev.size {
        var raised, answer := Ask(id, WriteBytes(e.from, data), |data|);
        if raised { return; }
        res := answer.Some?;
      }
      var r := RESPONSE_MAGIC;
      r := r + if res then RESPONSE_OK else RESPONSE_NOK;
      r := r + e.handle;
      assert r == r + [];
      Write(id, r);
    }

    method TakeHeader(id: nat)
      requires Connected(id) && |buffers[id]| >= 20
      modifies this`buffers, this`extra
      ensures Connected(id) && At(id) == old(At(id)).Drop(20).(extra := Header(old(buffers[id])))
      ensures buffers == old(buffers)[id := buffers[id]] && extra == old(extra)[id := extra[id]]
    {
      hide Unpack;
      ghost var b, c := buffers[id], At(id);
      var handle := Nibble(id, 8);
      var fromBytes := Nibble(id, 8);
      var from := UnpackLoop(fromBytes);
      var lenBytes := Nibble(id, 4);
      var len := UnpackLoop(lenBytes);
      assert fromBytes == b[8..16] && lenBytes == b[16..20] && b[8..][8..][4..] == b[20..];
      extra := extra[id := Extra(handle, from, len)];
    }

    /** The connection has gone one round on and may go another, or has done all it can. */
    ghost predicate Advanced(id: nat, again: bool, c: Conn)
      reads this
      requires Connected(id)
    {
      if again then !At(id).Over() && Step(dev, id, c) == Some(At(id)) else At(id) == Run(dev, id, c)
    }

    /** One round of CheckBuffer; whether to go round again. */
    method Advance(id: nat) returns (again: bool)
      requires Connected(id) && id !in closed && !dead
      modifies this
      ensures Connected(id) && OnlyChanged(id, old(states), old(buffers), old(extra), old(closed))
      ensures Advanced(id, again, old(At(id)))
    {
      hide Step, Run, Advanced, OnlyChanged;
      match states[id]
      case Magic => again := TakeMagic(id);
      case Cmd => again := TakeCmd(id);
      case WriteData => again := TakeData(id);
      case _ => again := TakeRequest(id);
    }

    method TakeMagic(id: nat) returns (again: bool)
      requires Connected(id) && id !in closed && !dead && states[id] == Magic
      modifies this
      ensures Connected(id) && OnlyChanged(id, old(states), old(buffers), old(extra), old(closed))
      ensures Advanced(id, again, old(At(id)))
    {
      hide DoRead, DoWrite, Unpack, Header, Response, Run;
      ghost var c := At(id);
      again := |buffers[id]| >= 4;
      if !again {
        RunWaits(dev, id, c);
        return;
      }
      var magic := Nibble(id, 4);
      again := magic == REQUEST_MAGIC;
      if again {
        states := states[id := Cmd];
      } else {
        Close(id);
        Stopped(dev, id, c, At(id));
      }
    }

    method TakeCmd(id: nat) returns (again: bool)
      requires Connected(id) && id !in closed && !dead && states[id] == Cmd
      modifies this
      ensures Connected(id) && OnlyChanged(id, old(states), old(buffers), old(extra), old(closed))
      ensures Advanced(id, again, old(At(id)))
    {
      hide DoRead, DoWrite, Unpack, Header, Response, Run;
      ghost var c := At(id);
      again := |buffers[id]| >= 4;
      if !again {
        RunWaits(dev, id, c);
        return;
      }
      var cmd := Nibble(id, 4);
      if cmd == CMD_DISC {
        again := false;
      } else if cmd == CMD_READ {
        states := states[id := Phase.Read];
      } else if cmd == CMD_WRITE {
        states := states[id := Phase.Write];
      } else {
        again := false;
      }
      if !again {
        Close(id);
        Stopped(dev, id, c, At(id));
      }
    }

    method TakeData(id: nat) returns (again: bool)
      requires Connected(id) && id !in closed && !dead && states[id] == WriteData
      modifies this
      ensures Connected(id) && OnlyChanged(id, old(states), old(buffers), old(extra), old(closed))
      ensures Advanced(id, again, old(At(id)))
    {
      hide DoRead, DoWrite, Unpack, Header, Response, Run;
      ghost var c := At(id);
      again := |buffers[id]| >= extra[id].len;
      if !again {
        RunWaits(dev, id, c);
        return;
      }
      var data := Nibble(id, extra[id].len);
      DoKeeps(dev, id, c.Drop(c.extra.len), data);
      WriteRequest(id, data);
      again := !dead;
      if again {
        states := states[id := Magic];
      } else {
        Stopped(dev, id, c, At(id));
      }
    }

    method TakeRequest(id: nat) returns (again: bool)
      requires Connected(id) && id !in closed && !dead && (states[id] == Phase.Read || states[id] == Phase.Write)
      modifies this
      ensures Connected(id) && OnlyChanged(id, old(states), old(buffers), old(extra), old(closed))
      ensures Advanced(id, again, old(At(id)))
    {
      hide DoRead, DoWrite, Unpack, Header, Response, Run;
      ghost var c := At(id);
      var reading := states[id] == Phase.Read;
      if |buffers[id]| < 20 {
        RunWaits(dev, id, c);
        return false;
      }
      TakeHeader(id);
      ghost var c1 := At(id);
      DoKeeps(dev, id, c1, []);
      if extra[id].len > MAX_LENGTH {
        Close(id);
        Stopped(dev, id, c, At(id));
        return false;
      }
      if reading {
        ReadRequest(id);
        if dead {
          Stopped(dev, id, c, At(id));
          return false;
        }
        states := states[id := Magic];
      } else {
        states := states[id := WriteData];
      }
      again := true;
    }

    /** Does everything the buffered bytes allow. */
    method CheckBuffer(id: nat)
      requires Connected(id) && id !in closed && !dead
      modifies this
      ensures Connected(id) && OnlyChanged(id, old(states), old(buffers), old(extra), old(closed))
      ensures At(id) == Run(dev, id, old(At(id)))
      decreases Measure(At(id))
    {
      hide Step, Run;
      ghost var c := At(id);
      StepShrinks(dev, id, c);
      var again := Advance(id);
      if again {
        RunStep(dev, id, c, At(id));
        CheckBuffer(id);
      }
    }

    /** Bytes arrive on a socket; a closed one hears nothing more, nor does any when the program has
        ended. */
    method OnRead(id: nat, r: seq<byte>)
      requires Valid() && id in states
      modifies this
      ensures Valid() && id in states && OnlyChanged(id, old(states), old(buffers), old(extra), old(closed))
      ensures At(id) == Feed(dev, id, old(At(id)), r)
    {
      hide Step, Waiting;
      if dead || id in closed { return; }
      buffers := buffers[id := buffers[id] + r];
      CheckBuffer(id);
      WaitingIsNoStep(dev, id, At(id));
      OthersClosed(old(closed), closed, id);
    }

    /** The greeting: two magic numbers, the size of the device, and padding. */
    method StartConnection(id: nat)
      modifies this`log
      ensures log == old(log) + Greeting(id, dev.size)
    {
      hide Pack;
      Write(id, PASSWORD);
      Write(id, INIT_MAGIC);
      var size := PackLoop(8, dev.size);
      Write(id, size);
      Write(id, seq(128, _ => 0));
    }

    /** A socket id may have been in use before. No callback is made once the program has ended. */
    method OnConnect(id: nat)
      requires Valid() && !dead
      modifies this
      ensures Valid() && id in states && OnlyChanged(id, old(states), old(buffers), old(extra), old(closed))
      ensures At(id) == Conn(Magic, [], Extra([], 0, 0), false, false, old(log) + Greeting(id, dev.size))
    {
      hide Greeting;
      closed := closed - {id};
      ResetState(id);
      StartConnection(id);
    }

    method OnEof(id: nat)
      requires Valid() && !dead
      modifies this
      ensures Valid() && id in states && OnlyChanged(id, old(states), old(buffers), old(extra), old(closed))
      ensures At(id) == Conn(Magic, [], Extra([], 0, 0), id in old(closed), false, old(log))
    {
      ResetState(id);
    }

    /** All the chunks of one socket's stream, as they arrive. */
    method OnStream(id: nat, chunks: seq<seq<byte>>)
      requires Valid() && id in states
      modifies this
      ensures Valid() && id in states && At(id) == FeedAll(dev, id, old(At(id)), chunks)
      ensures Seen(At(id)) == Seen(Feed(dev, id, old(At(id)), Joined(chunks)))
    {
      hide Feed, Step, Waiting;
      ghost var c := At(id);
      assert chunks[..0] == [];
      for k := 0 to |chunks|
        invariant Valid() && id in states && At(id) == FeedAll(dev, id, c, chunks[..k])
      {
        assert chunks[..k + 1][..k] == chunks[..k];
        OnRead(id, chunks[k]);
      }
      assert chunks[..|chunks|] == chunks;
      ChunksMatterNot(dev, id, c, chunks);
    }
  }

  lemma ChunksMatterNot(dev: Device, id: nat, c: Conn, chunks: seq<seq<byte>>)
    requires c.Over() || Waiting(c.phase, c.buffer, c.extra)
    ensures Seen(FeedAll(dev, id, c, chunks)) == Seen(Feed(dev, id, c, Joined(chunks)))
  {
    WaitingIsNoStep(dev, id, c);
    ChunksDoNotMatter(dev, id, c, chunks);
  }
}
