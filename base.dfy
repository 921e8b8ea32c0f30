/** Machine-level building blocks shared by the client and the server:
    bytes, 32-bit unsigned counters, and the C buffer and string
    operations (`bzero`, `strcspn`, `strcmp`, `strncmp`) the programs
    rely on. */
module Base {

  datatype Option<T> = None | Some(value: T)

  newtype byte = x: int | 0 <= x < 256

  type Bytes = seq<byte>

  /** `unsigned int`, assumed 32 bits wide. */
  newtype u32 = x: int | 0 <= x < 0x1_0000_0000

  const U32_RANGE: int := 0x1_0000_0000

  /** Size of every protocol buffer (`#define BUFSIZE 1024` on both sides). */
  const BUFSIZE: nat := 1024

  const NUL: byte := 0
  const NEWLINE: byte := 10
  const SPACE: byte := 32

  /** `x++` on an unsigned int: one more, wrapping to 0 after 2^32 - 1. */
  function Succ(x: u32): (r: u32)
    ensures r as int == (x as int + 1) % U32_RANGE
  {
    if x == 0xFFFF_FFFF then 0 else x + 1
  }

  /** The value an unsigned counter holds after `k` increments from `x`. */
  function Plus(x: u32, k: nat): u32
  {
    ((x as int + k) % U32_RANGE) as u32
  }

  lemma PlusZero(x: u32)
    ensures Plus(x, 0) == x
  {
  }

  lemma PlusSucc(x: u32, k: nat)
    ensures Plus(Succ(x), k) == Plus(x, k + 1) == Succ(Plus(x, k))
  {
  }

  /** `strcspn`: the length of the longest prefix of `s` holding no byte of `stops`. */
  function SpanUntil(s: Bytes, stops: set<byte>): (i: nat)
    ensures i <= |s|
    ensures forall j :: 0 <= j < i ==> s[j] !in stops
    ensures i < |s| ==> s[i] in stops
  {
    if s == [] || s[0] in stops then 0 else 1 + SpanUntil(s[1..], stops)
  }

  /** `strcspn` is determined by where the first stop byte is. */
  lemma SpanIs(s: Bytes, stops: set<byte>, i: nat)
    requires i <= |s| && (i < |s| ==> s[i] in stops)
    requires forall j :: 0 <= j < i ==> s[j] !in stops
    ensures SpanUntil(s, stops) == i
  {
  }

  /** The C string stored in a buffer: everything before the first NUL. */
  function CString(buf: Bytes): (s: Bytes)
    ensures |s| <= |buf| && s == buf[..|s|]
    ensures NUL !in s
    ensures |s| < |buf| ==> buf[|s|] == NUL
  {
    var n := SpanUntil(buf, {NUL});
    assert forall j :: 0 <= j < n ==> buf[..n][j] == buf[j];
    buf[..n]
  }

  /** A NUL-free `s` followed by a NUL is the C string at the buffer's front. */
  lemma CStringIs(buf: Bytes, s: Bytes)
    requires |s| < |buf| && buf[..|s|] == s && buf[|s|] == NUL && NUL !in s
    ensures CString(buf) == s
  {
    forall j | 0 <= j < |s|
      ensures buf[j] !in {NUL}
    {
      assert buf[j] == s[j];
    }
    SpanIs(buf, {NUL}, |s|);
  }

  /** The C string that starts at offset `i` of a buffer. */
  function CStringAt(buf: Bytes, i: nat): Bytes
    requires i <= |buf|
  {
    CString(buf[i..])
  }

  /** A buffer of BUFSIZE bytes that was zeroed (`bzero`) before `s` was
      copied to its front. */
  function Pad(s: Bytes): (buf: Bytes)
    requires |s| <= BUFSIZE
    ensures |buf| == BUFSIZE && buf[..|s|] == s
    ensures forall j :: |s| <= j < BUFSIZE ==> buf[j] == NUL
  {
    s + seq(BUFSIZE - |s|, _ => NUL)
  }

  /** Zero padding does not move the first stop byte when NUL is a stop
      byte and the padding is not empty. */
  lemma SpanPad(s: Bytes, stops: set<byte>)
    requires |s| < BUFSIZE && NUL in stops
    ensures SpanUntil(Pad(s), stops) == SpanUntil(s, stops)
  {
    var b := Pad(s);
    var c := SpanUntil(s, stops);
    forall j | 0 <= j < c
      ensures b[j] !in stops
    {
      assert b[j] == s[j];
    }
    if c < |s| {
      assert b[c] == s[c];
    }
    SpanIs(b, stops, c);
  }

  /** `strncmp(s, p, strlen(p)) == 0` for a NUL-free `p`: the first |p|
      bytes of `s` are `p`. */
  predicate HasPrefix(s: Bytes, p: Bytes)
  {
    |p| <= |s| && s[..|p|] == p
  }

  /** `strcmp(buf, t) == 0` where `buf` holds `s` followed by zero bytes:
      `s`, read as a C string, is exactly `t`. */
  predicate IsToken(s: Bytes, t: Bytes)
  {
    CString(s) == t
  }

  lemma {:induction false} TokenIsPrefix(s: Bytes, t: Bytes)
    requires NUL !in t
    ensures IsToken(s, t) <==> HasPrefix(s, t) && (|s| == |t| || s[|t|] == NUL)
  {
    var c := CString(s);
    if IsToken(s, t) {
      assert s[..|t|] == t;
    }
    if HasPrefix(s, t) && (|s| == |t| || s[|t|] == NUL) {
      var n := SpanUntil(s, {NUL});
      assert forall j :: 0 <= j < |t| ==> s[j] == t[j] && t[j] != NUL;
      assert n == |t|;
    }
  }

  /** The concatenation of a sequence of sequences. */
  function Flatten<T>(parts: seq<seq<T>>): (r: seq<T>)
    ensures |parts| == 1 ==> r == parts[0]
  {
    if parts == [] then [] else parts[0] + Flatten(parts[1..])
  }

  lemma {:induction false} FlattenAppend<T>(a: seq<seq<T>>, b: seq<seq<T>>)
    ensures Flatten(a + b) == Flatten(a) + Flatten(b)
  {
    if a == [] {
      assert a + b == b;
    } else {
      assert (a + b)[1..] == a[1..] + b;
      FlattenAppend(a[1..], b);
    }
  }

  lemma HeadTail<T>(s: seq<T>)
    requires s != []
    ensures s == [s[0]] + s[1..]
  {
  }

  lemma FlattenCons<T>(x: seq<T>, xs: seq<seq<T>>)
    ensures Flatten([x] + xs) == x + Flatten(xs)
  {
    assert ([x] + xs)[1..] == xs;
  }

  /** `n` copies of `x`. */
  function Repeat<T>(x: T, n: nat): (r: seq<T>)
    ensures |r| == n && forall k :: 0 <= k < n ==> r[k] == x
  {
    seq(n, _ => x)
  }

  lemma RepeatCons<T>(x: T, n: nat)
    ensures [x] + Repeat(x, n) == Repeat(x, n + 1)
  {
  }
}
