/** The server (an older protocol revision than the client: no sequence
    trailer, no acknowledgements, no put or delete handler). One pass of
    its request loop reads one datagram into a zeroed BUFSIZE buffer,
    dispatches on the verb the buffer starts with, and hands each reply
    packet to `sendPacket`, which calls `sendto` until the whole packet is
    out. The directory and the files are inputs; so are the values the
    `sendto` calls return. */
module Server {
  import opened Base
  import opened Tokens
  import opened Chunking

  // ------------------------------------------------------------------
  // sendPacket: the send-all loop
  // ------------------------------------------------------------------

  /** How a `sendPacket` call ends: `ok` is false when a `sendto` failed
      (the server then exits through `error`); `total` is the byte count
      the loop accumulated; `datagrams` are the buffers handed to the
      successive `sendto` calls; `rest` are the `sendto` results not
      consumed. */
  datatype SendAllEnd = SendAllEnd(ok: bool, total: int, datagrams: seq<Bytes>, rest: seq<int>)

  /** The result of the next `sendto` call when `remaining` bytes are left:
      the next scripted value, or, once the script is exhausted, the whole
      remainder (a UDP socket sends a datagram whole). */
  function NextSent(results: seq<int>, remaining: int): int
  {
    if results == [] then remaining else results[0]
  }

  function Consume(results: seq<int>): (rest: seq<int>)
    ensures results != [] ==> |rest| < |results|
  {
    if results == [] then [] else results[1..]
  }

  /** The loop `while (n < len) { sent = sendto(buf + n, len - n); if
      (sent < 0) error(); n += sent; }` started with `n` bytes counted. */
  function SendAll(packet: Bytes, n: nat, results: seq<int>): (r: SendAllEnd)
    decreases |results|, |packet| - n
  {
    if n >= |packet| then SendAllEnd(true, n, [], results)
    else
      var sent := NextSent(results, |packet| - n);
      if sent < 0 then SendAllEnd(false, n, [packet[n..]], Consume(results))
      else
        var r := SendAll(packet, n + sent, Consume(results));
        r.(datagrams := [packet[n..]] + r.datagrams)
  }

  function Before(sent: seq<Bytes>, r: SendAllEnd): SendAllEnd
  {
    r.(datagrams := sent + r.datagrams)
  }

  /** One pass of the loop: `sendto` is handed the unsent tail. */
  lemma SendAllStep(packet: Bytes, results: seq<int>, n: nat, rest: seq<int>, datagrams: seq<Bytes>)
    requires n < |packet| && NextSent(rest, |packet| - n) >= 0
    requires SendAll(packet, 0, results) == Before(datagrams, SendAll(packet, n, rest))
    ensures SendAll(packet, 0, results) ==
            Before(datagrams + [packet[n..]], SendAll(packet, n + NextSent(rest, |packet| - n), Consume(rest)))
  {
    var t := SendAll(packet, n + NextSent(rest, |packet| - n), Consume(rest));
    assert SendAll(packet, n, rest) == Before([packet[n..]], t);
    assert datagrams + ([packet[n..]] + t.datagrams) == (datagrams + [packet[n..]]) + t.datagrams;
  }

  /** The pass whose `sendto` fails ends the loop. */
  lemma SendAllFails(packet: Bytes, results: seq<int>, n: nat, rest: seq<int>, datagrams: seq<Bytes>)
    requires n < |packet| && NextSent(rest, |packet| - n) < 0
    requires SendAll(packet, 0, results) == Before(datagrams, SendAll(packet, n, rest))
    ensures SendAll(packet, 0, results) == SendAllEnd(false, n, datagrams + [packet[n..]], Consume(rest))
  {
  }

  method SendPacket(packet: Bytes, results: seq<int>)
    returns (ok: bool, total: int, datagrams: seq<Bytes>, rest: seq<int>)
    ensures SendAllEnd(ok, total, datagrams, rest) == SendAll(packet, 0, results)
  {
    var n: nat := 0;
    datagrams, rest := [], results;
    while n < |packet|
      invariant SendAll(packet, 0, results) == Before(datagrams, SendAll(packet, n, rest))
      decreases |rest|, |packet| - n
    {
      var sent := NextSent(rest, |packet| - n);
      if sent < 0 {
        SendAllFails(packet, results, n, rest, datagrams);
        return false, n, datagrams + [packet[n..]], Consume(rest);
      }
      SendAllStep(packet, results, n, rest, datagrams);
      datagrams, rest := datagrams + [packet[n..]], Consume(rest);
      n := n + sent;
    }
    ok, total := true, n;
  }

  /** The loop ends normally only once at least the whole packet is
      counted; every `sendto` is handed the unsent tail of the packet. */
  lemma {:induction false} SendAllShape(packet: Bytes, n: nat, results: seq<int>)
    ensures var r := SendAll(packet, n, results);
            (r.ok ==> r.total >= |packet|) &&
            (n < |packet| ==> 0 < |r.datagrams|) &&
            forall i :: 0 <= i < |r.datagrams| ==>
              exists k :: n <= k < |packet| && r.datagrams[i] == packet[k..]
    decreases |results|, |packet| - n
  {
    if n < |packet| {
      var sent := NextSent(results, |packet| - n);
      if sent >= 0 {
        SendAllShape(packet, n + sent, Consume(results));
        var r := SendAll(packet, n, results);
        var t := SendAll(packet, n + sent, Consume(results));
        forall i | 0 <= i < |r.datagrams|
          ensures exists k :: n <= k < |packet| && r.datagrams[i] == packet[k..]
        {
          if i == 0 {
            assert r.datagrams[0] == packet[n..];
          } else {
            assert r.datagrams[i] == t.datagrams[i - 1];
          }
        }
      }
    }
  }

  /** A send error is the only way the loop fails: with no negative
      `sendto` result the packet goes out. */
  lemma {:induction false} SendAllFailsOnlyOnError(packet: Bytes, n: nat, results: seq<int>)
    requires forall i :: 0 <= i < |results| ==> results[i] >= 0
    ensures SendAll(packet, n, results).ok
    decreases |results|, |packet| - n
  {
    if n < |packet| && NextSent(results, |packet| - n) >= 0 {
      SendAllFailsOnlyOnError(packet, n + NextSent(results, |packet| - n), Consume(results));
    }
  }

  /** The first failed `sendto` ends the call, and it was handed the
      unsent tail of the packet. */
  lemma SendAllStopsOnError(packet: Bytes, n: nat, results: seq<int>)
    requires n < |packet| && results != [] && results[0] < 0
    ensures SendAll(packet, n, results) == SendAllEnd(false, n, [packet[n..]], results[1..])
  {
  }

  function Sum(xs: seq<int>): int
  {
    if xs == [] then 0 else xs[0] + Sum(xs[1..])
  }

  /** `sendPacket` returns exactly `len` when every call it makes sends
      between nothing and what is left: each scripted result the loop
      reaches (the running count is still short of the length) is
      non-negative and keeps the count within the length. Results after
      the packet is complete are never used and are unconstrained. */
  lemma {:induction false} SendAllExact(packet: Bytes, n: nat, results: seq<int>)
    requires n <= |packet|
    requires forall k :: 0 <= k < |results| && n + Sum(results[..k]) < |packet| ==>
               0 <= results[k] && n + Sum(results[..k + 1]) <= |packet|
    ensures SendAll(packet, n, results).ok
    ensures SendAll(packet, n, results).total == |packet|
    decreases |results|
  {
    if n < |packet| && results != [] {
      assert results[..1] == [results[0]];
      assert Sum(results[..0]) == 0 && Sum(results[..1]) == results[0];
      var rest := results[1..];
      var m := n + results[0];
      forall k | 0 <= k < |rest| && m + Sum(rest[..k]) < |packet|
        ensures 0 <= rest[k] && m + Sum(rest[..k + 1]) <= |packet|
      {
        SumPrefixCons(results, k);
        SumPrefixCons(results, k + 1);
      }
      SendAllExact(packet, m, rest);
    }
  }

  /** Summing a prefix peels its first element like summing the whole. */
  lemma SumPrefixCons(xs: seq<int>, k: nat)
    requires 0 < k + 1 <= |xs|
    ensures Sum(xs[..k + 1]) == xs[0] + Sum(xs[1..][..k])
  {
    assert xs[..k + 1][1..] == xs[1..][..k];
  }

  /** When the first `sendto` sends the whole packet (as it does on a UDP
      socket), the packet goes out as one datagram and the call returns
      its length; an empty packet sends nothing. */
  lemma SendAllWhole(packet: Bytes, results: seq<int>)
    requires results == [] || results[0] == |packet|
    ensures SendAll(packet, 0, results) ==
            SendAllEnd(true, |packet|, if packet == [] then [] else [packet], if packet == [] then results else Consume(results))
  {
    if packet != [] {
      assert packet[0..] == packet;
    }
  }

  // ------------------------------------------------------------------
  // The request and its dispatch
  // ------------------------------------------------------------------

  /** The request buffer: `bzero(buf, BUFSIZE)`, then `recvfrom` copies at
      most BUFSIZE bytes of the datagram to its front. */
  function Request(datagram: Bytes): (buf: Bytes)
    ensures |buf| == BUFSIZE
  {
    Pad(if |datagram| <= BUFSIZE then datagram else datagram[..BUFSIZE])
  }

  /** A verb test on the buffer is the same test on the datagram. */
  lemma RequestPrefix(datagram: Bytes, verb: Bytes)
    requires 0 < |verb| <= BUFSIZE && NUL !in verb
    ensures HasPrefix(Request(datagram), verb) <==> HasPrefix(datagram, verb)
  {
    var buf := Request(datagram);
    if |datagram| < |verb| {
      assert buf[|datagram|] == NUL;
      assert verb[|datagram|] != NUL;
      assert buf[..|verb|][|datagram|] != verb[|datagram|];
    } else {
      assert buf[..|verb|] == datagram[..|verb|];
    }
  }

  datatype Kind = ExitRequest | LsRequest | GetRequest | Unknown

  /** The `if`/`else if` chain of the request loop: `exit` is tested
      first, then `ls`, then `get`; each test is a `strncmp` over the
      verb's length. */
  function Dispatch(buf: Bytes): (k: Kind)
    ensures k == ExitRequest <==> HasPrefix(buf, EXIT_VERB)
    ensures k == LsRequest <==> !HasPrefix(buf, EXIT_VERB) && HasPrefix(buf, LS_VERB)
    ensures k == GetRequest <==>
            !HasPrefix(buf, EXIT_VERB) && !HasPrefix(buf, LS_VERB) && HasPrefix(buf, GET_VERB)
  {
    if HasPrefix(buf, EXIT_VERB) then ExitRequest
    else if HasPrefix(buf, LS_VERB) then LsRequest
    else if HasPrefix(buf, GET_VERB) then GetRequest
    else Unknown
  }

  /** The three verbs start with different letters, so the order of the
      tests never matters: a request is classified by the verb it starts
      with, and one starting with none of them (`put`, `delete`) is
      unknown. */
  lemma DispatchByVerb(datagram: Bytes)
    ensures HasPrefix(datagram, EXIT_VERB) ==> Dispatch(Request(datagram)) == ExitRequest
    ensures HasPrefix(datagram, LS_VERB) ==> Dispatch(Request(datagram)) == LsRequest
    ensures HasPrefix(datagram, GET_VERB) ==> Dispatch(Request(datagram)) == GetRequest
    ensures !HasPrefix(datagram, EXIT_VERB) && !HasPrefix(datagram, LS_VERB) && !HasPrefix(datagram, GET_VERB)
            ==> Dispatch(Request(datagram)) == Unknown
    ensures HasPrefix(datagram, PUT_VERB) || HasPrefix(datagram, DELETE_VERB)
            ==> Dispatch(Request(datagram)) == Unknown
  {
    RequestPrefix(datagram, EXIT_VERB);
    RequestPrefix(datagram, LS_VERB);
    RequestPrefix(datagram, GET_VERB);
    if HasPrefix(datagram, PUT_VERB) || HasPrefix(datagram, DELETE_VERB) {
      assert datagram[0] == PUT_VERB[0] || datagram[0] == DELETE_VERB[0];
      assert !HasPrefix(datagram, EXIT_VERB) by { assert EXIT_VERB[..1] != PUT_VERB[..1]; }
    }
    if HasPrefix(datagram, LS_VERB) {
      assert datagram[0] == LS_VERB[0];
    }
    if HasPrefix(datagram, GET_VERB) {
      assert datagram[0] == GET_VERB[0];
    }
  }

  // ------------------------------------------------------------------
  // The get file name
  // ------------------------------------------------------------------

  /** `strcspn(buf, " \n\0") + 1`: the string literal's own terminator
      ends the stop set, so the name starts after the first space,
      newline or NUL. */
  function NameStart(buf: Bytes): (d: nat)
    ensures 0 < d <= |buf| + 1
    ensures d - 1 < |buf| ==> buf[d - 1] in {SPACE, NEWLINE, NUL}
    ensures forall j :: 0 <= j < d - 1 ==> buf[j] !in {SPACE, NEWLINE, NUL}
  {
    SpanUntil(buf, {SPACE, NEWLINE, NUL}) + 1
  }

  /** The name `strncpy` copies: the NUL-free text from NameStart up to
      the next NUL or the end of the buffer. */
  function FileName(buf: Bytes): (name: Bytes)
    requires NameStart(buf) <= |buf|
    ensures NUL !in name && NameStart(buf) + |name| <= |buf|
    ensures buf[NameStart(buf)..NameStart(buf) + |name|] == name
    ensures NameStart(buf) + |name| < |buf| ==> buf[NameStart(buf) + |name|] == NUL
  {
    CStringAt(buf, NameStart(buf))
  }

  /** The name lies inside the buffer with its terminator, and fits with
      its terminator in the 256-byte `file_name` array; otherwise `strlen`
      reads past the buffer or `strncpy` past the array. */
  predicate NameOk(buf: Bytes)
  {
    NameStart(buf) <= |buf| &&
    NameStart(buf) + |FileName(buf)| < |buf| &&
    |FileName(buf)| < 256
  }

  /** A request of the verb, one space or newline, and a name free of
      NULs that ends the datagram or is followed by a NUL: the name is the
      text after the separator. */
  lemma NameAfterSeparator(verb: Bytes, sep: byte, name: Bytes, tail: Bytes)
    requires sep == SPACE || sep == NEWLINE
    requires SPACE !in verb && NEWLINE !in verb && NUL !in verb && NUL !in name
    requires tail == [] || tail[0] == NUL
    requires |verb| + 1 + |name| < BUFSIZE
    ensures var buf := Request(verb + [sep] + name + tail);
            NameStart(buf) == |verb| + 1 && FileName(buf) == name &&
            (NameOk(buf) <==> |name| < 256)
  {
    VerbEndsAtSeparator(verb, sep, name + tail);
    assert verb + [sep] + name + tail == verb + [sep] + (name + tail);
    NameFollowsSeparator(verb, sep, name, tail);
  }

  /** The first space, newline or NUL of such a request is the separator. */
  lemma VerbEndsAtSeparator(verb: Bytes, sep: byte, rest: Bytes)
    requires sep == SPACE || sep == NEWLINE
    requires SPACE !in verb && NEWLINE !in verb && NUL !in verb
    requires |verb| + 1 < BUFSIZE
    ensures NameStart(Request(verb + [sep] + rest)) == |verb| + 1
  {
    var d := verb + [sep] + rest;
    var buf := Request(d);
    var v := |verb|;
    assert buf[..v + 1] == d[..v + 1];
    forall j | 0 <= j < v
      ensures buf[j] !in {SPACE, NEWLINE, NUL}
    {
      assert buf[j] == d[j] == verb[j];
    }
    assert buf[v] == sep;
    SpanIs(buf, {SPACE, NEWLINE, NUL}, v);
  }

  /** After the separator the buffer holds the name and then a NUL, taken
      from the datagram or from the zeroed rest of the buffer. */
  lemma NameFollowsSeparator(verb: Bytes, sep: byte, name: Bytes, tail: Bytes)
    requires NUL !in name && |verb| + 1 + |name| < BUFSIZE
    requires tail == [] || tail[0] == NUL
    ensures CStringAt(Request(verb + [sep] + name + tail), |verb| + 1) == name
  {
    var d := verb + [sep] + name + tail;
    var buf := Request(d);
    var v := |verb|;
    var e := v + 1 + |name|;
    var m := if |d| <= BUFSIZE then |d| else BUFSIZE;
    assert buf[..m] == d[..m];
    var s := buf[v + 1..];
    assert s[..|name|] == name by {
      forall j | 0 <= j < |name|
        ensures s[j] == name[j]
      {
        assert s[j] == buf[v + 1 + j] == d[v + 1 + j];
      }
    }
    if e < m {
      assert buf[e] == d[e] == tail[0];
    }
    assert s[|name|] == buf[e] == NUL;
    CStringIs(s, name);
  }

  /** With no separator before the end of a short request the name is
      empty: it is read from the zero bytes after the request's end. */
  lemma NoSeparatorNoName(datagram: Bytes)
    requires |datagram| + 2 <= BUFSIZE
    requires SPACE !in datagram && NEWLINE !in datagram && NUL !in datagram
    ensures NameStart(Request(datagram)) == |datagram| + 1
    ensures FileName(Request(datagram)) == []
    ensures NameOk(Request(datagram))
  {
    var buf := Request(datagram);
    forall j | 0 <= j < |datagram|
      ensures buf[j] !in {SPACE, NEWLINE, NUL}
    {
      assert buf[j] == datagram[j];
    }
    SpanIs(buf, {SPACE, NEWLINE, NUL}, |datagram|);
    var s := buf[|datagram| + 1..];
    assert s[0] == NUL;
    CStringIs(s, []);
  }

  // ------------------------------------------------------------------
  // The replies
  // ------------------------------------------------------------------

  /** What the server sees of its working directory: the names `readdir`
      yields, in order, or None when `opendir(".")` fails; and the
      readable files by name. */
  datatype Disk = Disk(listing: Option<seq<Bytes>>, files: map<Bytes, Bytes>)

  /** A directory entry fits `d_name[256]` with the appended space and
      terminator. */
  predicate EntryOk(name: Bytes)
  {
    NUL !in name && |name| + 2 <= 256
  }

  /** Every entry `readdir` yields fits its array. */
  predicate EntriesOk(listing: Option<seq<Bytes>>)
  {
    listing.Some? ==> forall i :: 0 <= i < |listing.value| ==> EntryOk(listing.value[i])
  }

  /** File names are non-empty C strings (`access("")` fails). */
  predicate DiskOk(disk: Disk)
  {
    forall name :: name in disk.files ==> name != [] && NUL !in name
  }

  /** What the request loop's body needs to stay within defined behaviour
      for this request: only `ls` writes into `d_name`, only `get` copies
      a file name. */
  predicate Defined(datagram: Bytes, disk: Disk)
  {
    DiskOk(disk) &&
    (Dispatch(Request(datagram)) == LsRequest ==> EntriesOk(disk.listing)) &&
    (Dispatch(Request(datagram)) == GetRequest ==> NameOk(Request(datagram)))
  }

  /** One packet per entry: the name with one space appended. */
  function Listing(names: seq<Bytes>): (ps: seq<Bytes>)
    ensures |ps| == |names|
  {
    seq(|names|, i requires 0 <= i < |names| => names[i] + [SPACE])
  }

  /** The packets the server hands to `sendPacket` for one request, in
      order. */
  function Response(datagram: Bytes, disk: Disk): seq<Bytes>
    requires Defined(datagram, disk)
  {
    var buf := Request(datagram);
    match Dispatch(buf)
    case ExitRequest => [EXIT_TOKEN, END_TOKEN]
    case LsRequest =>
      (match disk.listing
       case None => []
       case Some(names) => Listing(names) + [END_TOKEN])
    case GetRequest =>
      var name := FileName(buf);
      if name !in disk.files then [NOFILE, END_TOKEN]
      else Chunks(disk.files[name]) + [END_TOKEN]
    case Unknown => [BADINPT]
  }

  /** The `readdir` loop: one packet per entry, then `END`. */
  method ListDirectory(names: seq<Bytes>) returns (replies: seq<Bytes>)
    ensures replies == Listing(names) + [END_TOKEN]
  {
    replies := [];
    var i := 0;
    while i < |names|
      invariant i <= |names|
      invariant replies == Listing(names[..i])
    {
      assert Listing(names[..i + 1]) == Listing(names[..i]) + [names[i] + [SPACE]];
      replies := replies + [names[i] + [SPACE]];
      i := i + 1;
    }
    assert names[..i] == names;
    replies := replies + [END_TOKEN];
  }

  /** One pass of the `fread` loop: the read at `pos` is the next chunk. */
  lemma ReadStep(file: Bytes, pos: nat, n: nat, replies: seq<Bytes>)
    requires pos < |file| && n == if |file| - pos < BUFSIZE then |file| - pos else BUFSIZE
    requires replies + Chunks(file[pos..]) == Chunks(file)
    ensures (replies + [file[pos..pos + n]]) + Chunks(file[pos + n..]) == Chunks(file)
  {
    ChunksStep(file, pos, n);
    var c, later := file[pos..pos + n], Chunks(file[pos + n..]);
    assert Chunks(file[pos..]) == [c] + later;
    assert (replies + [c]) + later == replies + ([c] + later);
  }

  /** The `fread` loop: one packet per non-empty read, then `END`. */
  method ReadFile(file: Bytes) returns (replies: seq<Bytes>)
    ensures replies == Chunks(file) + [END_TOKEN]
  {
    var pos := 0;
    replies := [];
    while true
      invariant pos <= |file|
      invariant replies + Chunks(file[pos..]) == Chunks(file)
      decreases |file| - pos
    {
      var n := if |file| - pos < BUFSIZE then |file| - pos else BUFSIZE;
      if n <= 0 {
        break;
      }
      ReadStep(file, pos, n, replies);
      replies := replies + [file[pos..pos + n]];
      pos := pos + n;
    }
    assert file[pos..] == [];
    replies := replies + [END_TOKEN];
  }

  /** One pass of the request loop after `recvfrom`. */
  method HandleRequest(datagram: Bytes, disk: Disk) returns (replies: seq<Bytes>)
    requires Defined(datagram, disk)
    ensures replies == Response(datagram, disk)
  {
    var buf := Request(datagram);
    if HasPrefix(buf, EXIT_VERB) {
      replies := [EXIT_TOKEN, END_TOKEN];
    } else if HasPrefix(buf, LS_VERB) {
      if disk.listing.Some? {
        replies := ListDirectory(disk.listing.value);
      } else {
        replies := [];
      }
    } else if HasPrefix(buf, GET_VERB) {
      var name := FileName(buf);
      if name !in disk.files {
        replies := [NOFILE, END_TOKEN];
      } else {
        replies := ReadFile(disk.files[name]);
      }
    } else {
      replies := [BADINPT];
    }
  }

  // ------------------------------------------------------------------
  // What each kind of request gets back
  // ------------------------------------------------------------------

  /** `exit…` gets exactly `EXIT` then `END`. */
  lemma ExitReplies(datagram: Bytes, disk: Disk)
    requires DiskOk(disk) && HasPrefix(datagram, EXIT_VERB)
    ensures Defined(datagram, disk)
    ensures Response(datagram, disk) == [EXIT_TOKEN, END_TOKEN]
  {
    DispatchByVerb(datagram);
  }

  /** `ls…` gets one packet per entry, in `readdir` order, each the name
      and a space, then `END`; when the directory cannot be opened it gets
      nothing at all. */
  lemma LsReplies(datagram: Bytes, disk: Disk)
    requires DiskOk(disk) && EntriesOk(disk.listing) && HasPrefix(datagram, LS_VERB)
    ensures Defined(datagram, disk)
    ensures var r := Response(datagram, disk);
            match disk.listing
            case None => r == []
            case Some(names) =>
              |r| == |names| + 1 && r[|names|] == END_TOKEN &&
              forall i :: 0 <= i < |names| ==> r[i] == names[i] + [SPACE]
  {
    DispatchByVerb(datagram);
  }

  /** `get` of a name not on disk gets exactly `NOFILE` then `END`. */
  lemma GetMissingReplies(datagram: Bytes, disk: Disk)
    requires Defined(datagram, disk) && HasPrefix(datagram, GET_VERB)
    requires FileName(Request(datagram)) !in disk.files
    ensures Response(datagram, disk) == [NOFILE, END_TOKEN]
  {
    DispatchByVerb(datagram);
  }

  /** `get` of a file on disk gets its bytes as in-order chunks of 1 to
      BUFSIZE bytes that put back together are the file, then `END`; an
      empty file gets only `END`. */
  lemma GetFileReplies(datagram: Bytes, disk: Disk)
    requires Defined(datagram, disk) && HasPrefix(datagram, GET_VERB)
    requires FileName(Request(datagram)) in disk.files
    ensures var file := disk.files[FileName(Request(datagram))];
            var r := Response(datagram, disk);
            0 < |r| && r[|r| - 1] == END_TOKEN &&
            Flatten(r[..|r| - 1]) == file &&
            (forall i :: 0 <= i < |r| - 1 ==> 0 < |r[i]| <= BUFSIZE) &&
            |r| == (|file| + BUFSIZE - 1) / BUFSIZE + 1 &&
            (file == [] ==> r == [END_TOKEN])
  {
    DispatchByVerb(datagram);
    var file := disk.files[FileName(Request(datagram))];
    var r := Response(datagram, disk);
    assert r[..|r| - 1] == Chunks(file);
    ChunksFlatten(file);
    ChunksShape(file);
  }

  /** Any other request, `put` and `delete` included, gets one `BADINPT`
      and no `END`. */
  lemma UnknownReplies(datagram: Bytes, disk: Disk)
    requires DiskOk(disk)
    requires !HasPrefix(datagram, EXIT_VERB) && !HasPrefix(datagram, LS_VERB) && !HasPrefix(datagram, GET_VERB)
    ensures Defined(datagram, disk)
    ensures Response(datagram, disk) == [BADINPT]
  {
    DispatchByVerb(datagram);
  }

  /** `ls` when `readdir` lists exactly `a.txt` and `b.txt` gets
      `"a.txt "`, `"b.txt "`, `END`. */
  lemma ListTwoFiles(files: map<Bytes, Bytes>)
    requires forall name :: name in files ==> name != [] && NUL !in name
    ensures var a: Bytes := [97, 46, 116, 120, 116];                 // "a.txt"
            var b: Bytes := [98, 46, 116, 120, 116];                 // "b.txt"
            var disk := Disk(Some([a, b]), files);
            Defined(LS_VERB, disk) &&
            Response(LS_VERB, disk) == [a + [SPACE], b + [SPACE], END_TOKEN]
  {
    var a: Bytes := [97, 46, 116, 120, 116];
    var b: Bytes := [98, 46, 116, 120, 116];
    var disk := Disk(Some([a, b]), files);
    assert HasPrefix(LS_VERB, LS_VERB);
    LsReplies(LS_VERB, disk);
  }
}
