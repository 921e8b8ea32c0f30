/** The client's `main`: read a command line, classify it by its verb,
    send it as frame 0, then process the server's replies until END, EXIT,
    a timeout or an abort sends it back to the prompt (`goto get_usr`).

    The local file system is reduced to what `access` and `fopen` report
    and to the contents of the files involved. */
module ClientSession {
  import opened Base
  import opened Tokens
  import opened Framing
  import opened Chunking
  import opened ClientTransport

  // ------------------------------------------------------------ command line

  /** `enum Message_t` without NONE, which is represented by `None`. */
  datatype Message = GetMsg | PutMsg | DeleteMsg | LsMsg | ExitMsg

  function VerbText(v: Message): (t: Bytes)
    ensures 2 <= |t| && NUL !in t
  {
    match v
    case LsMsg => LS_VERB
    case DeleteMsg => DELETE_VERB
    case ExitMsg => EXIT_VERB
    case PutMsg => PUT_VERB
    case GetMsg => GET_VERB
  }

  /** `fgets` writes at most BUFSIZE - 1 bytes into the zeroed `buf`; a file
      name longer than `file_name` (256 bytes, the last one kept for the
      terminator) overflows it, and a name read from past the end of `buf`
      is undefined. */
  predicate LineOk(typed: Bytes)
  {
    |typed| < BUFSIZE &&
    var d := NameStart(typed);
    d < BUFSIZE && |CStringAt(Terminated(typed), d)| < 256
  }

  /** `buf` after `buf[strcspn(buf, "\n")] = '\0'`: the typed line is
      kept up to its first newline (or NUL), and a NUL ends it there. */
  function Terminated(typed: Bytes): (buf: Bytes)
    requires |typed| < BUFSIZE
    ensures |buf| == BUFSIZE
    ensures buf[..SpanUntil(typed, {NEWLINE, NUL})] == typed[..SpanUntil(typed, {NEWLINE, NUL})]
    ensures buf[SpanUntil(typed, {NEWLINE, NUL})] == NUL
  {
    var b := Pad(typed);
    SpanPad(typed, {NEWLINE, NUL});
    b[SpanUntil(b, {NEWLINE, NUL}) := NUL]
  }

  /** The offset `delimiter + 1` at which `strncpy` starts copying: the
      delimiter is the first space, newline or NUL of the terminated line,
      and there always is one. */
  function NameStart(typed: Bytes): (d: nat)
    requires |typed| < BUFSIZE
    ensures 0 < d <= BUFSIZE && Terminated(typed)[d - 1] in {SPACE, NEWLINE, NUL}
    ensures forall j :: 0 <= j < d - 1 ==> Terminated(typed)[j] !in {SPACE, NEWLINE, NUL}
  {
    SpanUntil(Terminated(typed), {SPACE, NEWLINE, NUL}) + 1
  }

  /** `file_name`: the C string that starts after the delimiter, shorter
      than the 256-byte array. */
  function FileName(typed: Bytes): (name: Bytes)
    requires LineOk(typed)
    ensures |name| < 256 && NUL !in name
    ensures NameStart(typed) + |name| <= BUFSIZE
    ensures Terminated(typed)[NameStart(typed)..NameStart(typed) + |name|] == name
    ensures NameStart(typed) + |name| < BUFSIZE ==> Terminated(typed)[NameStart(typed) + |name|] == NUL
  {
    CStringAt(Terminated(typed), NameStart(typed))
  }

  /** What `sendPacket(buf, strlen(buf), ...)` sends: the typed line up to
      its first newline (or NUL). */
  function CommandText(typed: Bytes): (t: Bytes)
    requires |typed| < BUFSIZE
    ensures t == typed[..SpanUntil(typed, {NEWLINE, NUL})]
  {
    var c := SpanUntil(typed, {NEWLINE, NUL});
    assert NUL !in typed[..c] by {
      forall j | 0 <= j < c
        ensures typed[..c][j] != NUL
      {
        assert typed[j] !in {NEWLINE, NUL};
      }
    }
    CStringIs(Terminated(typed), typed[..c]);
    CString(Terminated(typed))
  }

  /** The `strncmp` chain: the first verb in the order ls, delete, exit,
      put, get that begins the line. */
  function Classify(buf: Bytes): (v: Option<Message>)
    ensures v.Some? ==> HasPrefix(buf, VerbText(v.value))
    ensures v.None? ==> forall w: Message :: !HasPrefix(buf, VerbText(w))
  {
    if HasPrefix(buf, LS_VERB) then Some(LsMsg)
    else if HasPrefix(buf, DELETE_VERB) then Some(DeleteMsg)
    else if HasPrefix(buf, EXIT_VERB) then Some(ExitMsg)
    else if HasPrefix(buf, PUT_VERB) then Some(PutMsg)
    else if HasPrefix(buf, GET_VERB) then Some(GetMsg)
    else None
  }

  /** The five verbs begin with five different letters, so at most one
      matches and the order of the tests never matters. */
  lemma VerbsExclusive(buf: Bytes, v: Message, w: Message)
    requires HasPrefix(buf, VerbText(v)) && HasPrefix(buf, VerbText(w))
    ensures v == w
  {
    assert buf[0] == VerbText(v)[0] == VerbText(w)[0];
  }

  lemma ClassifyExact(buf: Bytes, v: Message)
    ensures Classify(buf) == Some(v) <==> HasPrefix(buf, VerbText(v))
  {
    if HasPrefix(buf, VerbText(v)) {
      VerbsExclusive(buf, v, Classify(buf).value);
    }
  }

  /** The file name is the text after the first space, up to the end of
      the line. */
  lemma NameAfterSpace(typed: Bytes, verb: Bytes, name: Bytes, tail: Bytes)
    requires typed == verb + [SPACE] + name + tail && |typed| < BUFSIZE
    requires forall j :: 0 <= j < |verb| ==> verb[j] !in {SPACE, NEWLINE, NUL}
    requires forall j :: 0 <= j < |name| ==> name[j] !in {NEWLINE, NUL}
    requires tail == [] || tail[0] == NEWLINE
    ensures NameStart(typed) == |verb| + 1
    ensures LineOk(typed) <==> |name| < 256
    ensures LineOk(typed) ==> FileName(typed) == name
  {
    LineEndsAfterName(typed, verb, name, tail);
    VerbEndsAtSpace(typed, verb, name, tail);
    NameIsCopied(typed, verb, name, tail);
  }

  /** The line ends (at a newline or the zero padding) right after the name. */
  lemma {:induction false} LineEndsAfterName(typed: Bytes, verb: Bytes, name: Bytes, tail: Bytes)
    requires typed == verb + [SPACE] + name + tail && |typed| < BUFSIZE
    requires forall j :: 0 <= j < |verb| ==> verb[j] !in {SPACE, NEWLINE, NUL}
    requires forall j :: 0 <= j < |name| ==> name[j] !in {NEWLINE, NUL}
    requires tail == [] || tail[0] == NEWLINE
    ensures SpanUntil(Pad(typed), {NEWLINE, NUL}) == |verb| + 1 + |name|
  {
    var b := Pad(typed);
    var e := |verb| + 1 + |name|;
    forall j | 0 <= j < e
      ensures b[j] !in {NEWLINE, NUL}
    {
      assert b[j] == typed[j];
      if j < |verb| {
        assert typed[j] == verb[j];
      } else if j > |verb| {
        assert typed[j] == name[j - |verb| - 1];
      }
    }
    assert b[e] in {NEWLINE, NUL} by {
      if tail != [] {
        assert b[e] == typed[e] == tail[0];
      }
    }
    SpanIs(b, {NEWLINE, NUL}, e);
  }

  /** In the terminated line the first space, newline or NUL is the space
      after the verb. */
  lemma {:induction false} VerbEndsAtSpace(typed: Bytes, verb: Bytes, name: Bytes, tail: Bytes)
    requires typed == verb + [SPACE] + name + tail && |typed| < BUFSIZE
    requires forall j :: 0 <= j < |verb| ==> verb[j] !in {SPACE, NEWLINE, NUL}
    requires SpanUntil(Pad(typed), {NEWLINE, NUL}) == |verb| + 1 + |name|
    ensures NameStart(typed) == |verb| + 1
  {
    var buf := Terminated(typed);
    forall j | 0 <= j < |verb|
      ensures buf[j] !in {SPACE, NEWLINE, NUL}
    {
      assert buf[j] == typed[j] == verb[j];
    }
    assert buf[|verb|] == typed[|verb|] == SPACE;
    SpanIs(buf, {SPACE, NEWLINE, NUL}, |verb|);
  }

  /** The C string after the space is the name, ended by the NUL that
      replaced the newline. */
  lemma {:induction false} NameIsCopied(typed: Bytes, verb: Bytes, name: Bytes, tail: Bytes)
    requires typed == verb + [SPACE] + name + tail && |typed| < BUFSIZE
    requires forall j :: 0 <= j < |name| ==> name[j] !in {NEWLINE, NUL}
    requires SpanUntil(Pad(typed), {NEWLINE, NUL}) == |verb| + 1 + |name|
    ensures CStringAt(Terminated(typed), |verb| + 1) == name
  {
    var buf := Terminated(typed);
    var at := buf[|verb| + 1..];
    assert at[..|name|] == name by {
      forall j | 0 <= j < |name|
        ensures at[j] == name[j]
      {
        assert at[j] == typed[|verb| + 1 + j];
      }
    }
    assert at[|name|] == NUL;
    assert NUL !in name by {
      forall j | 0 <= j < |name|
        ensures name[j] != NUL
      {
        assert name[j] !in {NEWLINE, NUL};
      }
    }
    CStringIs(at, name);
  }

  /** A line with no space before its end names no file. */
  lemma {:induction false} NoSpaceNoName(typed: Bytes)
    requires |typed| < BUFSIZE - 1
    requires var c := SpanUntil(typed, {NEWLINE, NUL}); c + 1 >= |typed|
    requires SPACE !in typed
    ensures LineOk(typed) && FileName(typed) == []
  {
    var b := Pad(typed);
    var c := SpanUntil(typed, {NEWLINE, NUL});
    forall j | 0 <= j < c
      ensures b[j] !in {NEWLINE, NUL}
    {
      assert b[j] == typed[j];
    }
    if c < |typed| {
      assert b[c] == typed[c];
    }
    SpanIs(b, {NEWLINE, NUL}, c);
    var buf := Terminated(typed);
    forall j | 0 <= j < c
      ensures buf[j] !in {SPACE, NEWLINE, NUL}
    {
      assert buf[j] == typed[j];
    }
    SpanIs(buf, {SPACE, NEWLINE, NUL}, c);
    assert buf[c + 1] == NUL;
    CStringIs(buf[c + 1..], []);
  }

  // --------------------------------------------------------- local files

  /** What the client's file system answers: the contents of each existing
      file, the existing files `fopen(name, "r")` cannot open, and the names
      `fopen(name, "w")` cannot create. */
  datatype LocalFs = LocalFs(files: map<Bytes, Bytes>, unreadable: set<Bytes>, uncreatable: set<Bytes>)

  /** `access(name, F_OK)` succeeds: the file exists, and the name is not
      empty (the empty path names no file, as for a bare `put`). */
  predicate Present(fs: LocalFs, name: Bytes)
  {
    name != [] && name in fs.files
  }

  /** `fopen(name, "w")` succeeds: the name is not empty and can be
      created. */
  predicate Creatable(fs: LocalFs, name: Bytes)
  {
    name != [] && name !in fs.uncreatable
  }

  // ------------------------------------------------------------- outcomes

  /** Why the client went back to the prompt. */
  datatype Abort =
    | IncorrectInput   // no verb matched; nothing sent
    | NoLocalFile      // put of a file `access` cannot find; nothing sent
    | CannotCreate     // get whose local file `fopen` cannot create; nothing sent
    | ServerSilent     // a getPacket timed out
    | RemoteNoFile     // get answered with NOFILE
    | BadPutReply      // put answered with anything but PUT_ACK
    | DeleteFailed     // delete answered with DELETE_ERR

  /** How a command ends: END received, EXIT received (the process exits),
      `error()` (the process exits), or back to the prompt. */
  datatype Outcome = Completed | Exited | Fatal | Prompt(why: Abort)

  predicate Terminal(o: Outcome)
  {
    o == Exited || o == Fatal
  }

  // ------------------------------------------------------------ reply loop

  /** The end of the reply loop: how it ended, what a get wrote to the
      local file, both counters, what was sent and what is left. */
  datatype ReplyEnd = ReplyEnd(outcome: Outcome, written: Bytes, sendNo: u32, getNo: u32,
                               wire: seq<Bytes>, rest: seq<Recv>)

  function Then(w: seq<Bytes>, r: ReplyEnd): ReplyEnd
  {
    r.(wire := w + r.wire)
  }

  /** What the reply loop does with a received payload (in `buf`): stop
      with an outcome, write it to the local file, stream the local file,
      or just wait for the next reply. */
  datatype Reaction = Finish(outcome: Outcome) | Store | StreamFile | Ignore

  /** The `strcmp`/`strncmp` tests of the reply loop, in their order. */
  function React(v: Message, buf: Bytes): (a: Reaction)
    ensures a == Finish(Exited) <==> IsToken(buf, EXIT_TOKEN)
    ensures a == Finish(Completed) <==> !IsToken(buf, EXIT_TOKEN) && IsToken(buf, END_TOKEN)
    ensures a == Store ==> v == GetMsg
    ensures a == StreamFile ==> v == PutMsg && HasPrefix(buf, PUT_ACK)
    ensures a.Finish? && a.outcome.Prompt? ==>
              (v == GetMsg && HasPrefix(buf, NOFILE)) || (v == PutMsg && !HasPrefix(buf, PUT_ACK)) ||
              (v == DeleteMsg && HasPrefix(buf, DELETE_ERR))
    ensures v == GetMsg && HasPrefix(buf, NOFILE) ==> a == Finish(Prompt(RemoteNoFile))
    ensures v == PutMsg && HasPrefix(buf, PUT_ACK) ==> a == StreamFile
    ensures v == DeleteMsg && HasPrefix(buf, DELETE_ERR) ==> a == Finish(Prompt(DeleteFailed))
    ensures !IsToken(buf, EXIT_TOKEN) && !IsToken(buf, END_TOKEN) ==>
              (v == GetMsg && !HasPrefix(buf, NOFILE) ==> a == Store) &&
              (v == PutMsg && !HasPrefix(buf, PUT_ACK) ==> a == Finish(Prompt(BadPutReply))) &&
              (v == DeleteMsg && !HasPrefix(buf, DELETE_ERR) ==> a == Ignore) &&
              (v in {LsMsg, ExitMsg} ==> a == Ignore)
  {
    ReplyPrefixesAreNoTokens(buf);
    if IsToken(buf, EXIT_TOKEN) then Finish(Exited)
    else if IsToken(buf, END_TOKEN) then Finish(Completed)
    else match v
      case GetMsg => if HasPrefix(buf, NOFILE) then Finish(Prompt(RemoteNoFile)) else Store
      case PutMsg => if !HasPrefix(buf, PUT_ACK) then Finish(Prompt(BadPutReply)) else StreamFile
      case DeleteMsg => if HasPrefix(buf, DELETE_ERR) then Finish(Prompt(DeleteFailed)) else Ignore
      case _ => Ignore
  }

  /** The loop `while (1) { getPacket(get_byte_order++); ... }` for a
      request of type `v`. `unread` is what is left to read of the file a
      put opened, `written` what a get has written so far. */
  function Replies(v: Message, unread: Bytes, written: Bytes, sendNo: u32, getNo: u32, net: seq<Recv>): (r: ReplyEnd)
    requires WellFormed(net)
    ensures |r.rest| <= |net| && WellFormed(r.rest)
    ensures r.outcome.Prompt? ==> r.outcome.why in {ServerSilent, RemoteNoFile, BadPutReply, DeleteFailed}
    ensures v != GetMsg ==> r.written == written
    decreases |net|
  {
    var g := Get(net, getNo);
    var acks := Repeat(GEN_ACK, g.acks);
    var nextGet := Succ(getNo);
    match g.status
    case NoReply => ReplyEnd(Prompt(ServerSilent), written, sendNo, nextGet, acks, g.rest)
    case GetError => ReplyEnd(Fatal, written, sendNo, nextGet, acks, g.rest)
    case Got(payload) =>
      match React(v, Pad(payload))
      case Finish(o) => ReplyEnd(o, written, sendNo, nextGet, acks, g.rest)
      case Store => Then(acks, Replies(v, unread, written + payload, sendNo, nextGet, g.rest))
      case Ignore => Then(acks, Replies(v, unread, written, sendNo, nextGet, g.rest))
      case StreamFile =>
        var s := SendStream(FilePackets(unread), sendNo, g.rest);
        StreamRest(FilePackets(unread), sendNo, g.rest);
        if s.died then ReplyEnd(Fatal, written, s.next, nextGet, acks + s.wire, s.rest)
        else Then(acks + s.wire, Replies(v, [], written, s.next, nextGet, s.rest))
  }

  /** The frames numbered `from`, `from + 1`, ... carrying `payloads`, as
      they arrive. */
  function Deliveries(payloads: seq<Bytes>, from: u32): (net: seq<Recv>)
    ensures |net| == |payloads|
  {
    seq(|payloads|, i requires 0 <= i < |payloads| => Datagram(Frame(payloads[i], Plus(from, i))))
  }

  lemma DeliveriesCons(payloads: seq<Bytes>, from: u32)
    requires payloads != []
    ensures Deliveries(payloads, from) ==
            [Datagram(Frame(payloads[0], from))] + Deliveries(payloads[1..], Succ(from))
  {
    var a := Deliveries(payloads, from);
    var b := [Datagram(Frame(payloads[0], from))] + Deliveries(payloads[1..], Succ(from));
    forall i | 0 <= i < |payloads|
      ensures a[i] == b[i]
    {
      if i == 0 {
        PlusZero(from);
      } else {
        PlusSucc(from, i - 1);
        assert b[i] == Deliveries(payloads[1..], Succ(from))[i - 1];
        assert payloads[1..][i - 1] == payloads[i];
      }
    }
  }

  /** A token that is the whole payload ends the reply loop in every mode:
      EXIT ends the process, END completes the command; one ack is sent. */
  lemma TokenEndsReplies(v: Message, unread: Bytes, written: Bytes, sendNo: u32, getNo: u32,
                         token: Bytes, net: seq<Recv>)
    requires token == EXIT_TOKEN || token == END_TOKEN
    requires WellFormed(net)
    ensures WellFormed([Datagram(Frame(token, getNo))] + net)
    ensures Replies(v, unread, written, sendNo, getNo, [Datagram(Frame(token, getNo))] + net) ==
            ReplyEnd(if token == EXIT_TOKEN then Exited else Completed, written, sendNo, Succ(getNo), [GEN_ACK], net)
  {
    GetAcceptsExpected(token, getNo, net);
    var buf := Pad(token);
    CStringIs(buf, token);
    assert Repeat(GEN_ACK, 1) == [GEN_ACK];
  }

  /** A timeout while waiting for a reply returns to the prompt without an
      ack. */
  lemma SilenceReturnsToPrompt(v: Message, unread: Bytes, written: Bytes, sendNo: u32, getNo: u32, net: seq<Recv>)
    requires WellFormed(net) && (net == [] || net[0] == Timeout)
    ensures Replies(v, unread, written, sendNo, getNo, net) ==
            ReplyEnd(Prompt(ServerSilent), written, sendNo, Succ(getNo), [], Drop(net, 1))
  {
  }

  /** NOFILE, PUT_ACK and DELETE_ERR begin with letters other than the `E`
      of EXIT and END, so a reply starting with one of them is neither
      token. */
  lemma ReplyPrefixesAreNoTokens(buf: Bytes)
    ensures HasPrefix(buf, NOFILE) || HasPrefix(buf, PUT_ACK) || HasPrefix(buf, DELETE_ERR) ==>
              !IsToken(buf, EXIT_TOKEN) && !IsToken(buf, END_TOKEN)
  {
    var t := CString(buf);
    if buf != [] && t != [] {
      assert t[0] == buf[0];
    }
  }

  /** What an honest server's data chunk must avoid to reach the file: it is
      not exactly EXIT or END and does not start with NOFILE. */
  predicate Plain(payload: Bytes)
  {
    |payload| <= BUFSIZE &&
    var buf := Pad(payload);
    !IsToken(buf, EXIT_TOKEN) && !IsToken(buf, END_TOKEN) && !HasPrefix(buf, NOFILE)
  }

  /** A get stores exactly the plain payloads. */
  lemma PlainIsStored(payload: Bytes)
    requires |payload| <= BUFSIZE
    ensures Plain(payload) <==> React(GetMsg, Pad(payload)) == Store
  {
  }

  /** In a get, a plain chunk numbered as expected is acknowledged once
      and written to the local file, and the loop goes on. */
  lemma GetStoresChunk(c: Bytes, unread: Bytes, written: Bytes, sendNo: u32, getNo: u32, tail: seq<Recv>)
    requires Plain(c) && WellFormed(tail)
    ensures WellFormed([Datagram(Frame(c, getNo))] + tail)
    ensures Replies(GetMsg, unread, written, sendNo, getNo, [Datagram(Frame(c, getNo))] + tail) ==
            Then([GEN_ACK], Replies(GetMsg, unread, written + c, sendNo, Succ(getNo), tail))
  {
    GetAcceptsExpected(c, getNo, tail);
    assert Repeat(GEN_ACK, 1) == [GEN_ACK];
  }

  /** A get receiving data frames numbered consecutively from the expected
      number, then END, writes exactly their concatenation, sends one ack
      per frame and completes. */
  lemma {:induction false} GetReassembles(chunks: seq<Bytes>, unread: Bytes, written: Bytes, sendNo: u32, getNo: u32,
                                          after: seq<Recv>)
    requires forall i :: 0 <= i < |chunks| ==> Plain(chunks[i])
    requires WellFormed(after)
    ensures WellFormed(Deliveries(chunks + [END_TOKEN], getNo) + after)
    ensures Replies(GetMsg, unread, written, sendNo, getNo, Deliveries(chunks + [END_TOKEN], getNo) + after) ==
            ReplyEnd(Completed, written + Flatten(chunks), sendNo, Plus(getNo, |chunks| + 1),
                     Repeat(GEN_ACK, |chunks| + 1), after)
    decreases |chunks|
  {
    if chunks == [] {
      GetEndOnly(unread, written, sendNo, getNo, after);
    } else {
      GetReassembles(chunks[1..], unread, written + chunks[0], sendNo, Succ(getNo), after);
      ReassembleCons(chunks, unread, written, sendNo, getNo, after);
    }
  }

  /** The induction step of GetReassembles, stated on `chunks`. */
  lemma ReassembleCons(chunks: seq<Bytes>, unread: Bytes, written: Bytes, sendNo: u32, getNo: u32, after: seq<Recv>)
    requires chunks != [] && Plain(chunks[0]) && WellFormed(after)
    requires WellFormed(Deliveries(chunks[1..] + [END_TOKEN], Succ(getNo)) + after)
    requires Replies(GetMsg, unread, written + chunks[0], sendNo, Succ(getNo),
                     Deliveries(chunks[1..] + [END_TOKEN], Succ(getNo)) + after) ==
             ReplyEnd(Completed, written + chunks[0] + Flatten(chunks[1..]), sendNo, Plus(Succ(getNo), |chunks[1..]| + 1),
                      Repeat(GEN_ACK, |chunks[1..]| + 1), after)
    ensures WellFormed(Deliveries(chunks + [END_TOKEN], getNo) + after)
    ensures Replies(GetMsg, unread, written, sendNo, getNo, Deliveries(chunks + [END_TOKEN], getNo) + after) ==
            ReplyEnd(Completed, written + Flatten(chunks), sendNo, Plus(getNo, |chunks| + 1),
                     Repeat(GEN_ACK, |chunks| + 1), after)
  {
    HeadTail(chunks);
    ChunkArrives(chunks[0], chunks[1..], getNo, after);
    ReassembleStep(chunks[0], chunks[1..], unread, written, sendNo, getNo, after,
                   Deliveries(chunks[1..] + [END_TOKEN], Succ(getNo)) + after);
  }

  /** The base case of GetReassembles: END alone completes the get. */
  lemma GetEndOnly(unread: Bytes, written: Bytes, sendNo: u32, getNo: u32, after: seq<Recv>)
    requires WellFormed(after)
    ensures WellFormed(Deliveries([] + [END_TOKEN], getNo) + after)
    ensures Replies(GetMsg, unread, written, sendNo, getNo, Deliveries([] + [END_TOKEN], getNo) + after) ==
            ReplyEnd(Completed, written + Flatten([]), sendNo, Plus(getNo, 1), Repeat(GEN_ACK, 1), after)
  {
    var ps: seq<Bytes> := [] + [END_TOKEN];
    DeliveriesCons(ps, getNo);
    assert ps[0] == END_TOKEN && ps[1..] == [];
    assert Deliveries(ps, getNo) + after == [Datagram(Frame(END_TOKEN, getNo))] + after;
    TokenEndsReplies(GetMsg, unread, written, sendNo, getNo, END_TOKEN, after);
    assert written + Flatten([]) == written;
  }

  /** The induction step of GetReassembles: a plain chunk in front of a
      stream that completes. */
  lemma ReassembleStep(c: Bytes, more: seq<Bytes>, unread: Bytes, written: Bytes, sendNo: u32, getNo: u32,
                       after: seq<Recv>, tail: seq<Recv>)
    requires Plain(c) && WellFormed(tail)
    requires Replies(GetMsg, unread, written + c, sendNo, Succ(getNo), tail) ==
             ReplyEnd(Completed, written + c + Flatten(more), sendNo, Plus(Succ(getNo), |more| + 1),
                      Repeat(GEN_ACK, |more| + 1), after)
    ensures WellFormed([Datagram(Frame(c, getNo))] + tail)
    ensures Replies(GetMsg, unread, written, sendNo, getNo, [Datagram(Frame(c, getNo))] + tail) ==
            ReplyEnd(Completed, written + Flatten([c] + more), sendNo, Plus(getNo, |more| + 2),
                     Repeat(GEN_ACK, |more| + 2), after)
  {
    GetStoresChunk(c, unread, written, sendNo, getNo, tail);
    WrittenStep(written, c, more);
    PlusSucc(getNo, |more| + 1);
    GetStep(Replies(GetMsg, unread, written + c, sendNo, Succ(getNo), tail),
            written + c + Flatten(more), written + Flatten([c] + more),
            sendNo, Plus(Succ(getNo), |more| + 1), Plus(getNo, |more| + 2), |more|, after);
  }

  /** The first of the frames arrives first, numbered as expected. */
  lemma ChunkArrives(c: Bytes, more: seq<Bytes>, getNo: u32, after: seq<Recv>)
    ensures Deliveries([c] + more + [END_TOKEN], getNo) + after ==
            [Datagram(Frame(c, getNo))] + (Deliveries(more + [END_TOKEN], Succ(getNo)) + after)
  {
    var ps := [c] + more + [END_TOKEN];
    DeliveriesCons(ps, getNo);
    assert ps[0] == c && ps[1..] == more + [END_TOKEN];
  }

  /** The induction step of GetReassembles: one more acknowledgement in
      front of a completed stream. */
  lemma GetStep(r: ReplyEnd, w: Bytes, w': Bytes, sendNo: u32, g: u32, g': u32, n: nat, after: seq<Recv>)
    requires r == ReplyEnd(Completed, w, sendNo, g, Repeat(GEN_ACK, n + 1), after)
    requires w == w' && g == g'
    ensures Then([GEN_ACK], r) == ReplyEnd(Completed, w', sendNo, g', Repeat(GEN_ACK, n + 2), after)
  {
    RepeatCons(GEN_ACK, n + 1);
  }

  /** The local file after one more chunk. */
  lemma WrittenStep(written: Bytes, c: Bytes, more: seq<Bytes>)
    ensures written + c + Flatten(more) == written + Flatten([c] + more)
  {
    FlattenCons(c, more);
    assert written + c + Flatten(more) == written + (c + Flatten(more));
  }

  /** In a put, a PUT_ACK reply (numbered as expected) makes the client
      stream the whole opened file, from the current send number, before
      waiting for the next reply; afterwards the file is at its end. */
  lemma PutAckStreamsFile(unread: Bytes, written: Bytes, sendNo: u32, getNo: u32, ack: Bytes, net: seq<Recv>)
    requires HasPrefix(ack, PUT_ACK) && |ack| <= BUFSIZE && WellFormed(net)
    ensures WellFormed([Datagram(Frame(ack, getNo))] + net)
    ensures WellFormed(SendStream(FilePackets(unread), sendNo, net).rest)
    ensures var s := SendStream(FilePackets(unread), sendNo, net);
            Replies(PutMsg, unread, written, sendNo, getNo, [Datagram(Frame(ack, getNo))] + net) ==
            if s.died then ReplyEnd(Fatal, written, s.next, Succ(getNo), [GEN_ACK] + s.wire, s.rest)
            else Then([GEN_ACK] + s.wire, Replies(PutMsg, [], written, s.next, Succ(getNo), s.rest))
  {
    GetAcceptsExpected(ack, getNo, net);
    StreamRest(FilePackets(unread), sendNo, net);
    PutAckStreams(ack);
    assert Repeat(GEN_ACK, 1) == [GEN_ACK];
  }

  /** A reply that begins with PUT_ACK is neither EXIT nor END, so a put
      streams its file. */
  lemma PutAckStreams(ack: Bytes)
    requires HasPrefix(ack, PUT_ACK) && |ack| <= BUFSIZE
    ensures React(PutMsg, Pad(ack)) == StreamFile
  {
    var buf := Pad(ack);
    var t := CString(buf);
    assert buf[0] == ack[0] == 80;
    assert t != [] && t[0] == 80;
    assert buf[..|PUT_ACK|] == ack[..|PUT_ACK|];
  }

  lemma ThenTwice(w1: seq<Bytes>, w2: seq<Bytes>, r: ReplyEnd)
    ensures Then(w1, Then(w2, r)) == Then(w1 + w2, r)
  {
    assert w1 + (w2 + r.wire) == (w1 + w2) + r.wire;
  }

  /** One pass of the reply loop, after `getPacket` returned a payload. */
  lemma RepliesGot(v: Message, file: Bytes, written: Bytes, sendNo: u32, getNo: u32, net: seq<Recv>,
                   payload: Bytes, acks: seq<Bytes>, rest: seq<Recv>)
    requires WellFormed(net) && Get(net, getNo) == GetResult(Got(payload), |acks|, rest)
    requires acks == Repeat(GEN_ACK, |acks|)
    ensures WellFormed(rest) && |payload| <= BUFSIZE
    ensures WellFormed(SendStream(FilePackets(file), sendNo, rest).rest)
    ensures var r := Replies(v, file, written, sendNo, getNo, net);
            match React(v, Pad(payload))
            case Finish(o) => r == ReplyEnd(o, written, sendNo, Succ(getNo), acks, rest)
            case Store => r == Then(acks, Replies(v, file, written + payload, sendNo, Succ(getNo), rest))
            case Ignore => r == Then(acks, Replies(v, file, written, sendNo, Succ(getNo), rest))
            case StreamFile =>
              var s := SendStream(FilePackets(file), sendNo, rest);
              if s.died then r == ReplyEnd(Fatal, written, s.next, Succ(getNo), acks + s.wire, s.rest)
              else r == Then(acks + s.wire, Replies(v, [], written, s.next, Succ(getNo), s.rest))
  {
    StreamRest(FilePackets(file), sendNo, rest);
  }

  /** The reply loop of `main` (the `while (1)` after the request is sent). */
  method RunReplies(v: Message, unread: Bytes, sendNo: u32, net: seq<Recv>)
    returns (outcome: Outcome, written: Bytes, nextSend: u32, nextGet: u32, wire: seq<Bytes>, rest: seq<Recv>)
    requires WellFormed(net)
    ensures ReplyEnd(outcome, written, nextSend, nextGet, wire, rest) == Replies(v, unread, [], sendNo, 0, net)
  {
    var file := unread;
    written, nextSend, nextGet, wire, rest := [], sendNo, 0, [], net;
    while true
      invariant WellFormed(rest)
      invariant Replies(v, unread, [], sendNo, 0, net) ==
                Then(wire, Replies(v, file, written, nextSend, nextGet, rest))
      decreases |rest|
    {
      var done, o, f, wr, s, g, w, r := ReplyStep(v, file, written, nextSend, nextGet, rest);
      if done {
        outcome, written, nextSend, nextGet, wire, rest := o, wr, s, g, wire + w, r;
        return;
      }
      ThenTwice(wire, w, Replies(v, f, wr, s, g, r));
      file, written, nextSend, nextGet, wire, rest := f, wr, s, g, wire + w, r;
    }
  }

  /** One pass of the reply loop: wait for the expected reply, then act on
      it. Either the loop is over (`done`), or it goes on from the new
      state after sending `wire`. */
  method ReplyStep(v: Message, file: Bytes, written: Bytes, sendNo: u32, getNo: u32, net: seq<Recv>)
    returns (done: bool, outcome: Outcome, file': Bytes, written': Bytes, sendNo': u32, getNo': u32,
             wire: seq<Bytes>, rest: seq<Recv>)
    requires WellFormed(net)
    ensures WellFormed(rest)
    ensures done ==> Replies(v, file, written, sendNo, getNo, net) ==
                     ReplyEnd(outcome, written', sendNo', getNo', wire, rest)
    ensures !done ==> |rest| < |net| &&
                      Replies(v, file, written, sendNo, getNo, net) ==
                      Then(wire, Replies(v, file', written', sendNo', getNo', rest))
  {
    var status, acks, r := GetPacket(getNo, net);
    done, outcome, file', written', sendNo', getNo' := true, Fatal, file, written, sendNo, Succ(getNo);
    if !status.Got? {
      outcome := if status == NoReply then Prompt(ServerSilent) else Fatal;
      wire, rest := acks, r;
      return;
    }
    var payload := status.payload;
    RepliesGot(v, file, written, sendNo, getNo, net, payload, acks, r);
    match React(v, Pad(payload))
    case Finish(o) =>
      outcome, wire, rest := o, acks, r;
    case Store =>
      done, written', wire, rest := false, written + payload, acks, r;
    case Ignore =>
      done, wire, rest := false, acks, r;
    case StreamFile =>
      StreamRest(FilePackets(file), sendNo, r);
      var died, next, sends, w, r' := SendFile(file, sendNo, r);
      sendNo', wire, rest := next, acks + w, r';
      if !died {
        done, file' := false, [];
      }
  }

  // --------------------------------------------------------------- command

  /** What `main` takes from a typed line: the request type, `file_name`
      and the text it sends. */
  datatype Request = Request(kind: Option<Message>, name: Bytes, text: Bytes)

  function Parse(typed: Bytes): (q: Request)
    requires LineOk(typed)
    ensures Fits(q)
  {
    Request(Classify(Terminated(typed)), FileName(typed), CommandText(typed))
  }

  /** `sendPacket` copies the request into a BUFSIZE + 4 byte buffer. */
  predicate Fits(q: Request)
  {
    |q.text| <= BUFSIZE
  }

  datatype CommandEnd = CommandEnd(outcome: Outcome, fs: LocalFs, wire: seq<Bytes>, rest: seq<Recv>)

  /** The local file system once a command is over: a get truncated its
      file with `fopen(name, "w")` and wrote every accepted payload to it. */
  function Saved(fs: LocalFs, v: Message, name: Bytes, written: Bytes): LocalFs
  {
    if v == GetMsg then fs.(files := fs.files[name := written]) else fs
  }

  /** One pass from `get_usr` back to it: the counters start at 0, the
      request goes out as frame 0 of the send counter, and the replies are
      processed from get number 0 and send number 1. */
  function Command(q: Request, fs: LocalFs, net: seq<Recv>): (c: CommandEnd)
    requires WellFormed(net)
    ensures |c.rest| <= |net| && WellFormed(c.rest)
  {
    match q.kind
    case None => CommandEnd(Prompt(IncorrectInput), fs, [], net)
    case Some(v) =>
      if v == PutMsg && !Present(fs, q.name) then CommandEnd(Prompt(NoLocalFile), fs, [], net)
      else if v == PutMsg && q.name in fs.unreadable then CommandEnd(Fatal, fs, [], net)
      else if v == GetMsg && !Creatable(fs, q.name) then CommandEnd(Prompt(CannotCreate), fs, [], net)
      else
        var unread := if v == PutMsg then fs.files[q.name] else [];
        var s := Send(net);
        var w := Repeat(Frame(q.text, 0), s.sends);
        if s.status == SendError then CommandEnd(Fatal, Saved(fs, v, q.name, []), w, s.rest)
        else
          var r := Replies(v, unread, [], 1, 0, s.rest);
          CommandEnd(r.outcome, Saved(fs, v, q.name, r.written), w + r.wire, r.rest)
  }

  /** The three ways back to the prompt before anything is sent: no verb
      matched, a put of a file that does not exist, a get whose local file
      cannot be created. Every other command sends its request (or ends the
      process on an unreadable put source). */
  lemma CommandLocalChecks(q: Request, fs: LocalFs, net: seq<Recv>)
    requires WellFormed(net)
    ensures var c := Command(q, fs, net);
            (c.outcome == Prompt(IncorrectInput) <==> q.kind.None?) &&
            (c.outcome == Prompt(NoLocalFile) <==> q.kind == Some(PutMsg) && !Present(fs, q.name)) &&
            (c.outcome == Prompt(CannotCreate) <==> q.kind == Some(GetMsg) && !Creatable(fs, q.name)) &&
            (c.outcome in {Prompt(IncorrectInput), Prompt(NoLocalFile), Prompt(CannotCreate)} ==>
               c.wire == [] && c.rest == net && c.fs == fs)
  {
    match q.kind
    case None =>
    case Some(v) =>
      if !(v == PutMsg && !Present(fs, q.name)) && !(v == GetMsg && !Creatable(fs, q.name)) {
        SentCommandOutcome(q, fs, net);
      }
  }

  /** Once the local checks pass, no outcome names a local cause. */
  lemma SentCommandOutcome(q: Request, fs: LocalFs, net: seq<Recv>)
    requires WellFormed(net) && q.kind.Some?
    requires !(q.kind.value == PutMsg && !Present(fs, q.name))
    requires !(q.kind.value == GetMsg && !Creatable(fs, q.name))
    ensures Command(q, fs, net).outcome !in {Prompt(IncorrectInput), Prompt(NoLocalFile), Prompt(CannotCreate)}
  {
  }

  /** Whatever is sent starts with the request, numbered 0 (with
      `CommandText`: the typed line up to its newline). */
  lemma CommandFirstFrame(q: Request, fs: LocalFs, net: seq<Recv>)
    requires WellFormed(net)
    ensures var c := Command(q, fs, net);
            c.wire != [] ==> q.kind.Some? && c.wire[0] == Frame(q.text, 0)
  {
  }

  /** Only a get changes the local files, and only the named one. */
  lemma CommandFiles(q: Request, fs: LocalFs, net: seq<Recv>)
    requires WellFormed(net)
    ensures var c := Command(q, fs, net);
            c.fs == fs ||
            (q.kind == Some(GetMsg) && c.fs == fs.(files := fs.files[q.name := c.fs.files[q.name]]))
  {
  }

  /** `main` from the classification of the typed line until it returns
      to the `get_usr` label or the process ends. */
  method RunRequest(q: Request, fs: LocalFs, net: seq<Recv>)
    returns (outcome: Outcome, fs': LocalFs, wire: seq<Bytes>, rest: seq<Recv>)
    requires Fits(q) && WellFormed(net)
    ensures CommandEnd(outcome, fs', wire, rest) == Command(q, fs, net)
  {
    var getByteOrder: u32, sendByteOrder: u32 := 0, 0;
    fs', wire, rest := fs, [], net;
    if q.kind.None? {
      outcome := Prompt(IncorrectInput);
      return;
    }
    var v := q.kind.value;
    var unread: Bytes := [];
    if v == PutMsg {
      if !Present(fs, q.name) {
        outcome := Prompt(NoLocalFile);
        return;
      }
      if q.name in fs.unreadable {
        outcome := Fatal;
        return;
      }
      unread := fs.files[q.name];
    } else if v == GetMsg {
      if !Creatable(fs, q.name) {
        outcome := Prompt(CannotCreate);
        return;
      }
      fs' := fs.(files := fs.files[q.name := []]);
    }
    var status, w, r := SendPacket(q.text, sendByteOrder, net);
    sendByteOrder := Succ(sendByteOrder);
    wire, rest := w, r;
    if status == SendError {
      outcome := Fatal;
      return;
    }
    var written, replies, r';
    outcome, written, sendByteOrder, getByteOrder, replies, r' := RunReplies(v, unread, sendByteOrder, rest);
    wire, rest := wire + replies, r';
    if v == GetMsg {
      fs' := fs.(files := fs.files[q.name := written]);
    }
  }

  // ---------------------------------------------------------------- session

  datatype SessionEnd = SessionEnd(outcomes: seq<Outcome>, fs: LocalFs, wire: seq<Bytes>, rest: seq<Recv>)

  /** The commands typed in turn, each starting afresh at `get_usr`, until
      one ends the process or the lines run out. */
  function Session(requests: seq<Request>, fs: LocalFs, net: seq<Recv>): (r: SessionEnd)
    requires WellFormed(net)
    decreases |requests|
  {
    if requests == [] then SessionEnd([], fs, [], net)
    else
      var c := Command(requests[0], fs, net);
      if Terminal(c.outcome) then SessionEnd([c.outcome], c.fs, c.wire, c.rest)
      else
        After([c.outcome], c.wire, Session(requests[1..], c.fs, c.rest))
  }

  /** One outcome per command run; only the last can end the process, and
      the session stops before the lines run out only when one does. */
  lemma {:induction false} SessionOutcomes(requests: seq<Request>, fs: LocalFs, net: seq<Recv>)
    requires WellFormed(net)
    ensures var r := Session(requests, fs, net);
            |r.outcomes| <= |requests| &&
            (forall i :: 0 <= i < |r.outcomes| - 1 ==> !Terminal(r.outcomes[i])) &&
            (|r.outcomes| < |requests| ==> Terminal(r.outcomes[|r.outcomes| - 1]))
    decreases |requests|
  {
    if requests != [] {
      var c := Command(requests[0], fs, net);
      if !Terminal(c.outcome) {
        SessionOutcomes(requests[1..], c.fs, c.rest);
      }
    }
  }

  /** `t` preceded by the commands already run. */
  function After(outcomes: seq<Outcome>, wire: seq<Bytes>, t: SessionEnd): SessionEnd
  {
    t.(outcomes := outcomes + t.outcomes, wire := wire + t.wire)
  }

  lemma AfterTwice(o1: seq<Outcome>, w1: seq<Bytes>, o2: seq<Outcome>, w2: seq<Bytes>, t: SessionEnd)
    ensures After(o1, w1, After(o2, w2, t)) == After(o1 + o2, w1 + w2, t)
  {
    assert o1 + (o2 + t.outcomes) == (o1 + o2) + t.outcomes;
    assert w1 + (w2 + t.wire) == (w1 + w2) + t.wire;
  }

  /** The session from request `i` on: that command, then the rest. */
  lemma SessionStep(qs: seq<Request>, i: nat, fs: LocalFs, net: seq<Recv>, c: CommandEnd)
    requires i < |qs| && WellFormed(net) && c == Command(qs[i], fs, net)
    ensures Session(qs[i..], fs, net) ==
            if Terminal(c.outcome) then SessionEnd([c.outcome], c.fs, c.wire, c.rest)
            else After([c.outcome], c.wire, Session(qs[i + 1..], c.fs, c.rest))
  {
    assert qs[i..][0] == qs[i];
    assert qs[i..][1..] == qs[i + 1..];
  }

  /** The `goto get_usr` loop of `main`, over the requests parsed from
      the typed lines. */
  method RunSession(requests: seq<Request>, fs: LocalFs, net: seq<Recv>)
    returns (outcomes: seq<Outcome>, fs': LocalFs, wire: seq<Bytes>, rest: seq<Recv>)
    requires forall i :: 0 <= i < |requests| ==> Fits(requests[i])
    requires WellFormed(net)
    ensures SessionEnd(outcomes, fs', wire, rest) == Session(requests, fs, net)
  {
    outcomes, fs', wire, rest := [], fs, [], net;
    var i := 0;
    while i < |requests|
      invariant i <= |requests| && WellFormed(rest)
      invariant Session(requests, fs, net) == After(outcomes, wire, Session(requests[i..], fs', rest))
    {
      var o, f, w, r := RunRequest(requests[i], fs', rest);
      SessionStep(requests, i, fs', rest, CommandEnd(o, f, w, r));
      AfterTwice(outcomes, wire, [o], w, Session(requests[i + 1..], f, r));
      outcomes, fs', wire, rest := outcomes + [o], f, wire + w, r;
      i := i + 1;
      if Terminal(o) {
        return;
      }
    }
  }
}
