/** The client's transport: `sendPacket` (frame, transmit, wait for any
    reply, retransmit on timeout at most five times), `getPacket`
    (acknowledge every datagram, keep the first whose trailer is the
    expected number) and `sendFile` (stream a file as numbered chunks
    followed by END).

    The socket is replaced by its observable behaviour: the outcomes the
    successive `recvfrom` calls report (`net`, consumed from the front)
    and the datagrams passed to `sendto`, in order (`wire`). */
module ClientTransport {
  import opened Base
  import opened Tokens
  import opened Framing
  import opened Chunking

  /** What one `recvfrom` call reports: the receive timeout expired, a
      datagram arrived, or any other error (on which the client calls
      `error()` and the process ends). */
  datatype Recv = Timeout | Datagram(data: Bytes) | RecvError

  /** The outcome of the `i`-th `recvfrom` from now: once the scripted
      outcomes are used up, no datagram ever arrives again. */
  function Event(net: seq<Recv>, i: nat): Recv
  {
    if i < |net| then net[i] else Timeout
  }

  /** The outcomes left after `k` calls to `recvfrom`. */
  function Drop(net: seq<Recv>, k: nat): (rest: seq<Recv>)
    ensures |rest| <= |net|
    ensures Event(rest, 0) == Event(net, k)
    ensures WellFormed(net) ==> WellFormed(rest)
  {
    if k <= |net| then net[k..] else []
  }

  lemma DropDrop(net: seq<Recv>, k: nat)
    ensures Drop(Drop(net, k), 1) == Drop(net, k + 1)
  {
  }

  /** `recvfrom` into a `cap`-byte buffer keeps the first `cap` bytes of a
      longer datagram. */
  function Received(d: Bytes, cap: nat): (r: Bytes)
    ensures |r| <= cap && |r| <= |d| && r == d[..|r|]
    ensures |d| <= cap ==> r == d
    ensures |d| > cap ==> r == d[..cap]
  {
    if |d| <= cap then d else d[..cap]
  }

  /** `getPacket` reads the trailer at offset `n - 4`: a datagram shorter
      than the trailer is undefined behaviour, so the model excludes it. */
  predicate WellFormed(net: seq<Recv>)
  {
    forall i :: 0 <= i < |net| ==> net[i].Datagram? ==> |net[i].data| >= TRAILER
  }

  // ---------------------------------------------------------------- sendPacket

  /** Size of `ack_buf` in `sendPacket`. */
  const ACK_BUF: nat := 256

  /** The first transmission plus five retransmissions (`++count > 5`). */
  const MAX_SENDS: nat := 6

  /** `sendPacket`'s return: the length of the reply taken as the ack, -1
      after the last timeout, or the process ended in `error()`. */
  datatype SendStatus = Acked(len: nat) | GaveUp | SendError

  datatype SendResult = SendResult(status: SendStatus, sends: nat, rest: seq<Recv>)

  /** The index of the first of the next `limit` waits that does not time
      out, or `limit` when all of them do. */
  function FirstAnswer(net: seq<Recv>, limit: nat): (i: nat)
    ensures i <= limit
    ensures forall j :: 0 <= j < i ==> Event(net, j) == Timeout
    ensures i < limit ==> Event(net, i) != Timeout
  {
    if limit == 0 then 0
    else
      var i := FirstAnswer(net, limit - 1);
      if i < limit - 1 || Event(net, limit - 1) != Timeout then i else limit
  }

  /** What one `sendPacket` call does to the socket: the number of
      transmissions of the frame, what it returns, and the outcomes left. */
  function Send(net: seq<Recv>): (r: SendResult)
    ensures 1 <= r.sends <= MAX_SENDS
    ensures r.rest == Drop(net, r.sends)
  {
    var i := FirstAnswer(net, MAX_SENDS);
    if i == MAX_SENDS then SendResult(GaveUp, MAX_SENDS, Drop(net, MAX_SENDS))
    else
      var status := match Event(net, i)
        case Datagram(d) => Acked(|Received(d, ACK_BUF)|)
        case _ => SendError;
      SendResult(status, i + 1, Drop(net, i + 1))
  }

  /** `sendPacket`: transmits `Frame(payload, seqNo)` and waits for a reply;
      on each timeout transmits the identical frame again, giving up when
      the sixth wait times out. Whatever datagram arrives first is taken
      as the acknowledgement: the comparison with GEN_ACK only resets the
      socket timeout. */
  method SendPacket(payload: Bytes, seqNo: u32, net: seq<Recv>)
    returns (status: SendStatus, wire: seq<Bytes>, rest: seq<Recv>)
    requires |payload| <= BUFSIZE
    ensures Send(net) == SendResult(status, |wire|, rest)
    ensures wire == Repeat(Frame(payload, seqNo), |wire|)
  {
    var frame := Frame(payload, seqNo);
    var count := 0;
    wire, rest := [], net;
    while true
      invariant 0 <= count <= 5
      invariant wire == Repeat(frame, count)
      invariant forall j :: 0 <= j < count ==> Event(net, j) == Timeout
      invariant rest == Drop(net, count)
      decreases 5 - count
    {
      wire := wire + [frame];
      var r := Event(rest, 0);
      DropDrop(net, count);
      rest := Drop(rest, 1);
      match r
      case Datagram(d) =>
        status := Acked(|Received(d, ACK_BUF)|);
        assert FirstAnswer(net, MAX_SENDS) == count;
        return;
      case RecvError =>
        status := SendError;
        assert FirstAnswer(net, MAX_SENDS) == count;
        return;
      case Timeout =>
        count := count + 1;
        if count > 5 {
          status := GaveUp;
          return;
        }
    }
  }

  /** When every wait times out, `sendPacket` returns -1 after exactly six
      transmissions; otherwise it does not give up. */
  lemma SendGivesUpAfterSix(net: seq<Recv>)
    ensures Send(net).status == GaveUp <==> forall i :: 0 <= i < MAX_SENDS ==> Event(net, i) == Timeout
    ensures Send(net).status == GaveUp ==> Send(net).sends == MAX_SENDS
  {
  }

  /** Any datagram that arrives within the first six waits is the ack,
      whatever its content; `sendPacket` returns its (truncated) length. */
  lemma SendAcceptsAnyReply(net: seq<Recv>, i: nat, d: Bytes)
    requires i < MAX_SENDS && Event(net, i) == Datagram(d)
    requires forall j :: 0 <= j < i ==> Event(net, j) == Timeout
    ensures Send(net) == SendResult(Acked(if |d| < ACK_BUF then |d| else ACK_BUF), i + 1, Drop(net, i + 1))
  {
    assert FirstAnswer(net, MAX_SENDS) == i;
  }

  // ----------------------------------------------------------------- getPacket

  /** Size of `get_buf` in `getPacket`. */
  const GET_BUF: nat := BUFSIZE + TRAILER

  /** `getPacket`'s return: the payload of the expected frame (its length
      is the `n - 4` returned), -1 on a timeout, or the process ended. */
  datatype GetStatus = Got(payload: Bytes) | NoReply | GetError

  datatype GetResult = GetResult(status: GetStatus, acks: nat, rest: seq<Recv>)

  /** A datagram `getPacket` discards when waiting for `expected`. */
  predicate Stale(r: Recv, expected: u32)
  {
    r.Datagram? && |r.data| >= TRAILER && Trailer(Received(r.data, GET_BUF)) != expected
  }

  /** What one `getPacket(expected)` call does to the socket. */
  function Get(net: seq<Recv>, expected: u32): (r: GetResult)
    requires WellFormed(net)
    ensures |r.rest| <= |net| && WellFormed(r.rest)
    ensures r.status.Got? ==> |r.rest| < |net| && |r.status.payload| <= BUFSIZE
    decreases |net|
  {
    if net == [] then GetResult(NoReply, 0, [])
    else match net[0]
      case Timeout => GetResult(NoReply, 0, net[1..])
      case RecvError => GetResult(GetError, 0, net[1..])
      case Datagram(d) =>
        var g := Received(d, GET_BUF);
        if Trailer(g) == expected then GetResult(Got(Payload(g)), 1, net[1..])
        else
          var r := Get(net[1..], expected);
          r.(acks := r.acks + 1)
  }

  /** `getPacket`: receives datagrams, answering each with GEN_ACK, until
      one carries the expected sequence number; returns -1 without an ack
      when a wait times out. */
  method GetPacket(expected: u32, net: seq<Recv>)
    returns (status: GetStatus, wire: seq<Bytes>, rest: seq<Recv>)
    requires WellFormed(net)
    ensures Get(net, expected) == GetResult(status, |wire|, rest)
    ensures wire == Repeat(GEN_ACK, |wire|)
  {
    wire, rest := [], net;
    while true
      invariant WellFormed(rest)
      invariant wire == Repeat(GEN_ACK, |wire|)
      invariant Get(net, expected) == Get(rest, expected).(acks := Get(rest, expected).acks + |wire|)
      decreases |rest|
    {
      if rest == [] {
        status := NoReply;
        return;
      }
      var r := rest[0];
      rest := rest[1..];
      match r
      case Timeout =>
        status := NoReply;
        return;
      case RecvError =>
        status := GetError;
        return;
      case Datagram(d) =>
        wire := wire + [GEN_ACK];
        var g := Received(d, GET_BUF);
        if Trailer(g) == expected {
          status := Got(Payload(g));
          return;
        }
    }
  }

  /** A frame carrying the expected number is delivered with one ack. */
  lemma GetAcceptsExpected(payload: Bytes, seqNo: u32, net: seq<Recv>)
    requires |payload| <= BUFSIZE && WellFormed(net)
    ensures WellFormed([Datagram(Frame(payload, seqNo))] + net)
    ensures Get([Datagram(Frame(payload, seqNo))] + net, seqNo) == GetResult(Got(payload), 1, net)
  {
    FrameRoundTrip(payload, seqNo);
    assert ([Datagram(Frame(payload, seqNo))] + net)[1..] == net;
  }

  /** Stale datagrams (retransmissions already delivered, out-of-order
      frames) are acknowledged and dropped: they change nothing but the
      number of acks. */
  lemma {:induction false} GetSkipsStale(stale: seq<Recv>, net: seq<Recv>, expected: u32)
    requires WellFormed(net)
    requires forall i :: 0 <= i < |stale| ==> Stale(stale[i], expected)
    ensures WellFormed(stale + net)
    ensures Get(stale + net, expected) == Get(net, expected).(acks := Get(net, expected).acks + |stale|)
    decreases |stale|
  {
    if stale == [] {
      assert stale + net == net;
    } else {
      assert (stale + net)[0] == stale[0];
      assert (stale + net)[1..] == stale[1..] + net;
      GetSkipsStale(stale[1..], net, expected);
    }
  }

  // ------------------------------------------------------------------ sendFile

  datatype StreamResult = StreamResult(died: bool, next: u32, sends: seq<nat>, wire: seq<Bytes>, rest: seq<Recv>)

  /** `sendPacket` applied to each packet in turn with consecutive sequence
      numbers from `seqNo`; a packet that is never acknowledged does not
      stop the stream, only an `error()` does. */
  function SendStream(packets: seq<Bytes>, seqNo: u32, net: seq<Recv>): (r: StreamResult)
    decreases |packets|
  {
    if packets == [] then StreamResult(false, seqNo, [], [], net)
    else
      var s := Send(net);
      var w := Repeat(Frame(packets[0], seqNo), s.sends);
      if s.status == SendError then StreamResult(true, Succ(seqNo), [s.sends], w, s.rest)
      else
        var r := SendStream(packets[1..], Succ(seqNo), s.rest);
        r.(sends := [s.sends] + r.sends, wire := w + r.wire)
  }

  /** A stream only consumes receive outcomes, and leaves well-formed
      input well-formed. */
  lemma {:induction false} StreamRest(packets: seq<Bytes>, seqNo: u32, net: seq<Recv>)
    ensures |SendStream(packets, seqNo, net).rest| <= |net|
    ensures WellFormed(net) ==> WellFormed(SendStream(packets, seqNo, net).rest)
    decreases |packets|
  {
    if packets != [] {
      var s := Send(net);
      if s.status != SendError {
        StreamRest(packets[1..], Succ(seqNo), s.rest);
      }
    }
  }

  /** `t` preceded by transmissions already made. */
  function Prepend(sends: seq<nat>, wire: seq<Bytes>, t: StreamResult): StreamResult
  {
    t.(sends := sends + t.sends, wire := wire + t.wire)
  }

  lemma PrependTwice(s1: seq<nat>, w1: seq<Bytes>, s2: seq<nat>, w2: seq<Bytes>, t: StreamResult)
    ensures Prepend(s1, w1, Prepend(s2, w2, t)) == Prepend(s1 + s2, w1 + w2, t)
  {
    assert s1 + (s2 + t.sends) == (s1 + s2) + t.sends;
    assert w1 + (w2 + t.wire) == (w1 + w2) + t.wire;
  }

  /** One step of the stream: the first packet's `sendPacket`, then the
      rest, or nothing more when that call ended the process. */
  lemma StreamCons(p: Bytes, ps: seq<Bytes>, seqNo: u32, net: seq<Recv>,
                   status: SendStatus, w: seq<Bytes>, rest: seq<Recv>)
    requires Send(net) == SendResult(status, |w|, rest) && w == Repeat(Frame(p, seqNo), |w|)
    ensures SendStream([p] + ps, seqNo, net) ==
              if status == SendError then StreamResult(true, Succ(seqNo), [|w|], w, rest)
              else Prepend([|w|], w, SendStream(ps, Succ(seqNo), rest))
  {
    assert ([p] + ps)[0] == p;
    assert ([p] + ps)[1..] == ps;
  }

  /** A stream of one packet: that packet's `sendPacket` alone. */
  lemma StreamSingle(p: Bytes, seqNo: u32, net: seq<Recv>, status: SendStatus, w: seq<Bytes>, rest: seq<Recv>)
    requires Send(net) == SendResult(status, |w|, rest) && w == Repeat(Frame(p, seqNo), |w|)
    ensures SendStream([p], seqNo, net) == StreamResult(status == SendError, Succ(seqNo), [|w|], w, rest)
  {
    StreamCons(p, [], seqNo, net, status, w, rest);
    assert [p] + [] == [p];
  }

  /** After the last chunk only END is left to send. */
  lemma FileEnd(file: Bytes, seqNo: u32, net: seq<Recv>, status: SendStatus, w: seq<Bytes>, rest: seq<Recv>)
    requires Send(net) == SendResult(status, |w|, rest) && w == Repeat(Frame(END_TOKEN, seqNo), |w|)
    ensures SendStream(FilePackets(file[|file|..]), seqNo, net) == StreamResult(status == SendError, Succ(seqNo), [|w|], w, rest)
  {
    assert FilePackets(file[|file|..]) == [END_TOKEN];
    StreamSingle(END_TOKEN, seqNo, net, status, w, rest);
  }

  /** What `sendFile` hands to `sendPacket`: the file's chunks, then END. */
  function FilePackets(file: Bytes): (ps: seq<Bytes>)
  {
    Chunks(file) + [END_TOKEN]
  }

  /** One pass of `sendFile`'s loop: the read at `pos` yields a chunk of
      `n` bytes, `sendPacket` transmits it, and the rest of the file's
      stream follows unless that call ended the process. */
  lemma FileStep(file: Bytes, pos: nat, n: nat, seqNo: u32, net: seq<Recv>,
                 status: SendStatus, w: seq<Bytes>, rest: seq<Recv>)
    requires pos < |file| && n == if |file| - pos < BUFSIZE then |file| - pos else BUFSIZE
    requires Send(net) == SendResult(status, |w|, rest) && w == Repeat(Frame(file[pos..pos + n], seqNo), |w|)
    ensures SendStream(FilePackets(file[pos..]), seqNo, net) ==
              if status == SendError then StreamResult(true, Succ(seqNo), [|w|], w, rest)
              else Prepend([|w|], w, SendStream(FilePackets(file[pos + n..]), Succ(seqNo), rest))
  {
    ChunksStep(file, pos, n);
    var chunk, later := file[pos..pos + n], FilePackets(file[pos + n..]);
    assert FilePackets(file[pos..]) == [chunk] + later;
    StreamCons(chunk, later, seqNo, net, status, w, rest);
  }

  /** `sendFile`: reads the file BUFSIZE bytes at a time and sends each
      non-empty read as a packet, then END, advancing `*byte_num` once per
      packet. The result of each `sendPacket` is ignored. */
  method SendFile(file: Bytes, byteNum: u32, net: seq<Recv>)
    returns (died: bool, next: u32, sends: seq<nat>, wire: seq<Bytes>, rest: seq<Recv>)
    ensures StreamResult(died, next, sends, wire, rest) == SendStream(FilePackets(file), byteNum, net)
  {
    var pos := 0;
    died, next, sends, wire, rest := false, byteNum, [], [], net;
    while true
      invariant pos <= |file|
      invariant SendStream(FilePackets(file), byteNum, net) ==
                Prepend(sends, wire, SendStream(FilePackets(file[pos..]), next, rest))
      decreases |file| - pos
    {
      var n := if |file| - pos < BUFSIZE then |file| - pos else BUFSIZE;
      if n <= 0 {
        break;
      }
      var d, k, w, r := SendChunk(file, pos, n, next, rest);
      if d {
        died, next, sends, wire, rest := true, Succ(next), sends + [k], wire + w, r;
        return;
      }
      PrependTwice(sends, wire, [k], w, SendStream(FilePackets(file[pos + n..]), Succ(next), r));
      next, sends, wire, rest := Succ(next), sends + [k], wire + w, r;
      pos := pos + n;
    }
    var d, k, w, r := SendEnd(file, next, rest);
    died, next, sends, wire, rest := d, Succ(next), sends + [k], wire + w, r;
  }

  /** One pass of `sendFile`'s loop: `sendPacket` of the chunk read at
      `pos`; `died` when that call ended the process. */
  method SendChunk(file: Bytes, pos: nat, n: nat, seqNo: u32, net: seq<Recv>)
    returns (died: bool, k: nat, w: seq<Bytes>, rest: seq<Recv>)
    requires pos < |file| && n == if |file| - pos < BUFSIZE then |file| - pos else BUFSIZE
    ensures SendStream(FilePackets(file[pos..]), seqNo, net) ==
              if died then StreamResult(true, Succ(seqNo), [k], w, rest)
              else Prepend([k], w, SendStream(FilePackets(file[pos + n..]), Succ(seqNo), rest))
  {
    var status;
    status, w, rest := SendPacket(file[pos..pos + n], seqNo, net);
    k := |w|;
    FileStep(file, pos, n, seqNo, net, status, w, rest);
    died := status == SendError;
  }

  /** The final `sendPacket` of `END` once the file is read. */
  method SendEnd(file: Bytes, seqNo: u32, net: seq<Recv>)
    returns (died: bool, k: nat, w: seq<Bytes>, rest: seq<Recv>)
    ensures SendStream(FilePackets(file[|file|..]), seqNo, net) == StreamResult(died, Succ(seqNo), [k], w, rest)
  {
    var status;
    status, w, rest := SendPacket(END_TOKEN, seqNo, net);
    k := |w|;
    FileEnd(file, seqNo, net, status, w, rest);
    died := status == SendError;
  }

  /** The transmissions of packet `i` of a stream: `sends[i]` copies of its
      frame, numbered `seqNo + i`. */
  function Copies(packets: seq<Bytes>, seqNo: u32, sends: seq<nat>): (cs: seq<seq<Bytes>>)
    requires |sends| <= |packets|
    ensures |cs| == |sends|
  {
    seq(|sends|, i requires 0 <= i < |sends| => Repeat(Frame(packets[i], Plus(seqNo, i)), sends[i]))
  }

  lemma CopiesCons(packets: seq<Bytes>, seqNo: u32, sends: seq<nat>)
    requires 0 < |sends| <= |packets|
    ensures Copies(packets, seqNo, sends) ==
            [Repeat(Frame(packets[0], seqNo), sends[0])] + Copies(packets[1..], Succ(seqNo), sends[1..])
  {
    var a := Copies(packets, seqNo, sends);
    var b := [Repeat(Frame(packets[0], seqNo), sends[0])] + Copies(packets[1..], Succ(seqNo), sends[1..]);
    forall i | 0 <= i < |sends|
      ensures a[i] == b[i]
    {
      if i > 0 {
        PlusSucc(seqNo, i - 1);
      }
    }
  }

  /** The counting half of StreamShape. */
  lemma {:induction false} StreamCounts(packets: seq<Bytes>, seqNo: u32, net: seq<Recv>)
    ensures var r := SendStream(packets, seqNo, net);
            |r.sends| <= |packets| &&
            (r.died || |r.sends| == |packets|) &&
            (r.died ==> 0 < |r.sends|) &&
            (forall i :: 0 <= i < |r.sends| ==> 1 <= r.sends[i] <= MAX_SENDS)
    decreases |packets|
  {
    if packets != [] {
      var s := Send(net);
      if s.status != SendError {
        var t := SendStream(packets[1..], Succ(seqNo), s.rest);
        StreamCounts(packets[1..], Succ(seqNo), s.rest);
        var r := SendStream(packets, seqNo, net);
        assert r.sends == [s.sends] + t.sends && r.died == t.died;
      }
    }
  }

  /** The numbering half of StreamShape: one number per `sendPacket` call. */
  lemma {:induction false} StreamNext(packets: seq<Bytes>, seqNo: u32, net: seq<Recv>)
    ensures var r := SendStream(packets, seqNo, net);
            r.next == Plus(seqNo, |r.sends|)
    decreases |packets|
  {
    if packets != [] {
      var s := Send(net);
      if s.status != SendError {
        var t := SendStream(packets[1..], Succ(seqNo), s.rest);
        StreamNext(packets[1..], Succ(seqNo), s.rest);
        var r := SendStream(packets, seqNo, net);
        assert |r.sends| == 1 + |t.sends| && r.next == t.next;
        PlusSucc(seqNo, |t.sends|);
      } else {
        PlusSucc(seqNo, 0);
      }
    } else {
      assert Plus(seqNo, 0) == seqNo;
    }
  }

  /** The wire half of StreamShape. */
  lemma {:induction false} StreamWire(packets: seq<Bytes>, seqNo: u32, net: seq<Recv>)
    ensures var r := SendStream(packets, seqNo, net);
            |r.sends| <= |packets| && r.wire == Flatten(Copies(packets, seqNo, r.sends))
    decreases |packets|
  {
    StreamCounts(packets, seqNo, net);
    if packets != [] {
      var r := SendStream(packets, seqNo, net);
      var s := Send(net);
      var w := Repeat(Frame(packets[0], seqNo), s.sends);
      CopiesCons(packets, seqNo, r.sends);
      if s.status != SendError {
        var t := SendStream(packets[1..], Succ(seqNo), s.rest);
        StreamWire(packets[1..], Succ(seqNo), s.rest);
        assert r.sends[1..] == t.sends && r.wire == w + t.wire;
      } else {
        assert r.sends[1..] == [] && r.wire == w;
      }
    }
  }

  /** The stream numbers its packets consecutively from `seqNo`: it makes
      one `sendPacket` call per packet, each transmitting between one and
      six copies of that packet's frame, and stops early only when a call
      ends the process. The counter ends `|sends|` steps past `seqNo`. */
  lemma StreamShape(packets: seq<Bytes>, seqNo: u32, net: seq<Recv>)
    ensures var r := SendStream(packets, seqNo, net);
            |r.sends| <= |packets| &&
            (r.died || |r.sends| == |packets|) &&
            (r.died ==> 0 < |r.sends|) &&
            r.next == Plus(seqNo, |r.sends|) &&
            (forall i :: 0 <= i < |r.sends| ==> 1 <= r.sends[i] <= MAX_SENDS) &&
            r.wire == Flatten(Copies(packets, seqNo, r.sends))
  {
    StreamCounts(packets, seqNo, net);
    StreamNext(packets, seqNo, net);
    StreamWire(packets, seqNo, net);
  }

  /** `sendFile` sends ceil(|file| / BUFSIZE) chunks that put back together
      give the file, then END, so a run the process survives advances the
      counter by the number of chunks plus one; an empty file sends only
      END. */
  lemma FileStream(file: Bytes, seqNo: u32, net: seq<Recv>)
    ensures var ps := FilePackets(file);
            |ps| == (|file| + BUFSIZE - 1) / BUFSIZE + 1 &&
            Flatten(ps[..|ps| - 1]) == file && ps[|ps| - 1] == END_TOKEN
    ensures file == [] ==> FilePackets(file) == [END_TOKEN]
    ensures var r := SendStream(FilePackets(file), seqNo, net);
            !r.died ==> r.next == Plus(seqNo, (|file| + BUFSIZE - 1) / BUFSIZE + 1)
  {
    var ps := FilePackets(file);
    assert ps[..|ps| - 1] == Chunks(file);
    ChunksShape(file);
    ChunksFlatten(file);
    StreamShape(ps, seqNo, net);
  }
}
