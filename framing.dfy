/** The client's frame: the payload followed by a 4-byte trailer holding
    the sequence number. The trailer is the memory image of an
    `unsigned int`; this model fixes it to little-endian byte order. */
module Framing {
  import opened Base

  const TRAILER: nat := 4

  function Pow256(k: nat): (p: nat)
    ensures p > 0
  {
    if k == 0 then 1 else 256 * Pow256(k - 1)
  }

  /** The `count` low-order base-256 digits of `n`, least significant first. */
  function Digits(n: nat, count: nat): (b: Bytes)
    ensures |b| == count
  {
    if count == 0 then [] else [(n % 256) as byte] + Digits(n / 256, count - 1)
  }

  /** The number whose base-256 digits, least significant first, are `b`. */
  function Value(b: Bytes): (n: nat)
    ensures n < Pow256(|b|)
  {
    if b == [] then 0 else b[0] as nat + 256 * Value(b[1..])
  }

  lemma {:induction false} DigitsValue(n: nat, count: nat)
    requires n < Pow256(count)
    ensures Value(Digits(n, count)) == n
  {
    if count > 0 {
      DigitsValue(n / 256, count - 1);
      assert Digits(n, count)[1..] == Digits(n / 256, count - 1);
    }
  }

  lemma {:induction false} ValueDigits(b: Bytes)
    ensures Digits(Value(b), |b|) == b
  {
    if b != [] {
      ValueDigits(b[1..]);
      var n := Value(b);
      assert n % 256 == b[0] as int && n / 256 == Value(b[1..]);
    }
  }

  /** The 4-byte memory image of an `unsigned int` on a little-endian host:
      byte `i` is digit `i` of the number in base 256. */
  function LittleEndian(x: u32): (b: Bytes)
    ensures |b| == TRAILER
  {
    seq(TRAILER, i requires 0 <= i < TRAILER => (x as int / Pow256(i) % 256) as byte)
  }

  lemma LittleEndianDigits(x: u32)
    ensures LittleEndian(x) == Digits(x as int, TRAILER)
  {
    var n := x as int;
    var n1, n2, n3 := n / 256, n / 256 / 256, n / 256 / 256 / 256;
    assert Digits(n3, 1) == [(n3 % 256) as byte];
    assert Digits(n2, 2) == [(n2 % 256) as byte] + Digits(n3, 1);
    assert Digits(n1, 3) == [(n1 % 256) as byte] + Digits(n2, 2);
    assert Digits(n, 4) == [(n % 256) as byte] + Digits(n1, 3);
    assert Pow256(1) == 256 && Pow256(2) == 65536 && Pow256(3) == 16777216;
    assert n / 65536 == n2 && n / 16777216 == n3;
    var le := LittleEndian(x);
    assert le[0] == (n % 256) as byte && le[1] == (n1 % 256) as byte;
    assert le[2] == (n2 % 256) as byte && le[3] == (n3 % 256) as byte;
  }

  function FromLittleEndian(b: Bytes): u32
    requires |b| == TRAILER
  {
    assert Pow256(TRAILER) == U32_RANGE;
    Value(b) as u32
  }

  lemma NumberRoundTrip(x: u32)
    ensures FromLittleEndian(LittleEndian(x)) == x
  {
    assert Pow256(TRAILER) == U32_RANGE;
    LittleEndianDigits(x);
    DigitsValue(x as nat, TRAILER);
  }

  lemma TrailerRoundTrip(b: Bytes)
    requires |b| == TRAILER
    ensures LittleEndian(FromLittleEndian(b)) == b
  {
    LittleEndianDigits(FromLittleEndian(b));
    ValueDigits(b);
  }

  /** What `sendPacket` puts in `send_buf`: `len` payload bytes, then the
      sequence number. (`send_buf` holds BUFSIZE + 4 bytes; `SendPacket`
      requires the payload to fit.) */
  function Frame(payload: Bytes, seqNo: u32): (f: Bytes)
    ensures |f| == |payload| + TRAILER
  {
    payload + LittleEndian(seqNo)
  }

  /** The sequence number `getPacket` reads from the last 4 bytes. */
  function Trailer(f: Bytes): u32
    requires |f| >= TRAILER
  {
    FromLittleEndian(f[|f| - TRAILER..])
  }

  /** The `n - 4` bytes `getPacket` copies back to the caller. */
  function Payload(f: Bytes): (p: Bytes)
    requires |f| >= TRAILER
    ensures |p| == |f| - TRAILER && p + f[|p|..] == f
  {
    f[..|f| - TRAILER]
  }

  lemma FrameRoundTrip(payload: Bytes, seqNo: u32)
    ensures Payload(Frame(payload, seqNo)) == payload
    ensures Trailer(Frame(payload, seqNo)) == seqNo
  {
    var f := Frame(payload, seqNo);
    assert f[|f| - TRAILER..] == LittleEndian(seqNo);
    NumberRoundTrip(seqNo);
  }

  lemma UnframeRoundTrip(f: Bytes)
    requires |f| >= TRAILER
    ensures Frame(Payload(f), Trailer(f)) == f
  {
    TrailerRoundTrip(f[|f| - TRAILER..]);
    assert f == f[..|f| - TRAILER] + f[|f| - TRAILER..];
  }
}
