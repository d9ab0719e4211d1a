/** The wire format of the native protocol: messages one after the other, each behind an 8-byte header.

    The header is two 32-bit words in the byte order of the machine (both ends share it; little-endian
    here): the destination id, and the opcode in the top 8 bits over the payload size in the low 24. */
module Framing {

  newtype byte = x: int | 0 <= x < 256

  type word32 = x: int | 0 <= x < 0x1_0000_0000

  const SIZE_LIMIT := 0x100_0000

  datatype Message = Message(dest: word32, opcode: byte, payload: seq<byte>)

  /** A message the header has room for. */
  predicate Fits(m: Message) {
    |m.payload| < SIZE_LIMIT
  }

  /** The number of values of n bytes. */
  function Values(n: nat): (v: nat)
    ensures v > 0
  {
    if n == 0 then 1 else 256 * Values(n - 1)
  }

  /** A number in n bytes, the least significant first. */
  function Bytes(w: nat, n: nat): (b: seq<byte>)
    ensures |b| == n
  {
    if n == 0 then [] else [(w % 256) as byte] + Bytes(w / 256, n - 1)
  }

  function Number(b: seq<byte>): (w: nat)
    ensures w < Values(|b|)
  {
    if b == [] then 0 else b[0] as int + 256 * Number(b[1..])
  }

  function WordBytes(w: word32): (b: seq<byte>)
    ensures |b| == 4
  {
    Bytes(w, 4)
  }

  function Word(b: seq<byte>): (w: word32)
    requires |b| == 4
  {
    assert Values(4) == 0x1_0000_0000;
    Number(b)
  }

  lemma {:induction false} NumberRoundTrip(w: nat, n: nat)
    requires w < Values(n)
    ensures Number(Bytes(w, n)) == w
    decreases n
  {
    if n > 0 {
      NumberRoundTrip(w / 256, n - 1);
      assert Bytes(w, n)[1..] == Bytes(w / 256, n - 1);
    }
  }

  lemma WordRoundTrip(w: word32)
    ensures Word(WordBytes(w)) == w
  {
    assert Values(4) == 0x1_0000_0000;
    NumberRoundTrip(w, 4);
  }

  /** The second header word: only the low 24 bits of the size are kept. */
  function SizeWord(opcode: byte, size: nat): (w: word32)
    ensures w / SIZE_LIMIT == opcode as int && w % SIZE_LIMIT == size % SIZE_LIMIT
  {
    opcode as int * SIZE_LIMIT + size % SIZE_LIMIT
  }

  function Header(dest: word32, opcode: byte, size: nat): (b: seq<byte>)
    ensures |b| == 8
  {
    WordBytes(dest) + WordBytes(SizeWord(opcode, size))
  }

  /** One message as it is written. */
  function Frame(m: Message): (b: seq<byte>)
    ensures |b| == 8 + |m.payload|
  {
    Header(m.dest, m.opcode, |m.payload|) + m.payload
  }

  /** The wire format, byte by byte: the destination, least significant byte first; then the low three bytes
      of the size and the opcode, which is the word of the opcode times 2^24 plus the size; then the payload. */
  lemma WireFormat(m: Message)
    ensures var f, n := Frame(m), |m.payload|;
            && |f| == 8 + n && f[8..] == m.payload
            && f[0] as int == m.dest % 256 && f[1] as int == m.dest / 256 % 256
            && f[2] as int == m.dest / 65536 % 256 && f[3] as int == m.dest / 16777216
            && f[4] as int == n % 256 && f[5] as int == n / 256 % 256 && f[6] as int == n / 65536 % 256
            && f[7] == m.opcode
  {
    FourBytes(m.dest);
    var n := |m.payload|;
    var w := SizeWord(m.opcode, n);
    FourBytes(w);
    LowBytes(m.opcode as int, n, w);
    assert Frame(m)[..4] == WordBytes(m.dest) && Frame(m)[4..8] == WordBytes(w);
  }

  lemma FourBytes(w: word32)
    ensures var b := WordBytes(w);
            && b[0] as int == w % 256 && b[1] as int == w / 256 % 256
            && b[2] as int == w / 65536 % 256 && b[3] as int == w / 16777216
  {
    assert Bytes(w, 4) == [(w % 256) as byte] + Bytes(w / 256, 3);
    assert Bytes(w / 256, 3) == [(w / 256 % 256) as byte] + Bytes(w / 256 / 256, 2);
    assert Bytes(w / 256 / 256, 2) == [(w / 256 / 256 % 256) as byte] + Bytes(w / 256 / 256 / 256, 1);
    assert w / 256 / 256 == w / 65536 && w / 65536 / 256 == w / 16777216;
    assert w / 16777216 < 256;
  }

  lemma LowBytes(opcode: int, n: nat, w: int)
    requires 0 <= opcode < 256 && w == opcode * SIZE_LIMIT + n % SIZE_LIMIT
    ensures w % 256 == n % 256 && w / 256 % 256 == n / 256 % 256
    ensures w / 65536 % 256 == n / 65536 % 256 && w / 16777216 == opcode
  {
    Digits(opcode, n % SIZE_LIMIT);
    Digits(n / SIZE_LIMIT, n % SIZE_LIMIT);
  }

  /** The low three bytes of a number are those of its remainder by 2^24. */
  lemma Digits(high: nat, low: nat)
    requires low < SIZE_LIMIT
    ensures var x := high * SIZE_LIMIT + low;
            && x % 256 == low % 256 && x / 256 % 256 == low / 256 % 256
            && x / 65536 % 256 == low / 65536 % 256 && x / SIZE_LIMIT == high
  {
    var x := high * SIZE_LIMIT + low;
    Shift(high * 65536, low);
    Shift(high * 256, low / 256);
    Shift(high, low / 256 / 256);
    assert x == 256 * (high * 65536) + low;
    assert x / 256 / 256 == x / 65536 && low / 256 / 256 == low / 65536;
  }

  lemma Shift(a: nat, b: nat)
    ensures (256 * a + b) / 256 == a + b / 256 && (256 * a + b) % 256 == b % 256
  {
    var q, r := b / 256, b % 256;
    assert 256 * a + b == 256 * (a + q) + r;
  }

  function Encode(ms: seq<Message>): seq<byte> {
    if ms == [] then [] else Frame(ms[0]) + Encode(ms[1..])
  }

  // ---------- reading ----------

  function DestOf(s: seq<byte>): word32
    requires |s| >= 8
  {
    Word(s[..4])
  }

  function OpcodeOf(s: seq<byte>): byte
    requires |s| >= 8
  {
    (Word(s[4..8]) / SIZE_LIMIT) as byte
  }

  function SizeOf(s: seq<byte>): (n: nat)
    requires |s| >= 8
    ensures n < SIZE_LIMIT
  {
    Word(s[4..8]) % SIZE_LIMIT
  }

  /** The stream starts with a whole message. */
  predicate HasMessage(s: seq<byte>) {
    |s| >= 8 && |s| >= 8 + SizeOf(s)
  }

  function FirstMessage(s: seq<byte>): Message
    requires HasMessage(s)
  {
    Message(DestOf(s), OpcodeOf(s), s[8..8 + SizeOf(s)])
  }

  /** The stream is a sequence of whole messages. */
  predicate Framed(s: seq<byte>) {
    s == [] || (HasMessage(s) && Framed(s[8 + SizeOf(s)..]))
  }

  function Decode(s: seq<byte>): seq<Message>
    requires Framed(s)
  {
    if s == [] then [] else [FirstMessage(s)] + Decode(s[8 + SizeOf(s)..])
  }

  lemma DropFront(a: seq<byte>, b: seq<byte>, n: nat)
    requires n <= |a|
    ensures (a + b)[n..] == a[n..] + b
  {
    assert a == a[..n] + a[n..];
    assert a + b == a[..n] + (a[n..] + b);
  }

  lemma SubSlice(s: seq<byte>, at: nat, end: nat, i: nat, j: nat)
    requires at <= end <= |s| && i <= j <= end - at
    ensures s[at..end][i..j] == s[at + i..at + j]
  {
    var part, same := s[at..end][i..j], s[at + i..at + j];
    forall k | 0 <= k < j - i ensures part[k] == same[k] {
      assert part[k] == s[at..end][i + k] == s[at + (i + k)];
    }
    assert part == same;
  }

  lemma HeaderReads(s: seq<byte>, m: Message, size: nat)
    requires |s| >= 8 && s[..8] == Header(m.dest, m.opcode, size)
    ensures DestOf(s) == m.dest && OpcodeOf(s) == m.opcode && SizeOf(s) == size % SIZE_LIMIT
  {
    WordRoundTrip(m.dest);
    WordRoundTrip(SizeWord(m.opcode, size));
    assert s[..4] == s[..8][..4] == WordBytes(m.dest);
    assert s[4..8] == s[..8][4..8] == WordBytes(SizeWord(m.opcode, size));
  }

  /** A frame reads back as the message it was written for exactly when the payload is below 2^24 bytes. */
  lemma FrameReadsBack(m: Message, rest: seq<byte>)
    ensures HasMessage(Frame(m) + rest)
    ensures FirstMessage(Frame(m) + rest) == m <==> |m.payload| < SIZE_LIMIT
    ensures Fits(m) ==> (Frame(m) + rest)[8 + |m.payload|..] == rest
  {
    var s := Frame(m) + rest;
    assert s[..8] == Header(m.dest, m.opcode, |m.payload|);
    HeaderReads(s, m, |m.payload|);
    assert s[8..8 + |m.payload|] == m.payload;
  }

  lemma DecodeStep(m: Message, rest: seq<byte>)
    requires Fits(m) && Framed(rest)
    ensures Framed(Frame(m) + rest) && Decode(Frame(m) + rest) == [m] + Decode(rest)
  {
    FrameReadsBack(m, rest);
    assert SizeOf(Frame(m) + rest) == |FirstMessage(Frame(m) + rest).payload|;
  }

  /** Framing round trip: a stream of messages decodes to exactly those messages, in order. */
  lemma {:induction false} RoundTrip(ms: seq<Message>)
    requires forall m | m in ms :: Fits(m)
    ensures Framed(Encode(ms)) && Decode(Encode(ms)) == ms
  {
    if ms != [] {
      RoundTrip(ms[1..]);
      DecodeStep(ms[0], Encode(ms[1..]));
      assert ms == [ms[0]] + ms[1..];
    }
  }

  lemma Regroup(ms: seq<Message>, m: Message, rest: seq<Message>)
    ensures (ms + [m]) + rest == ms + ([m] + rest)
  {
  }

  lemma DecodeFirst(s: seq<byte>)
    requires Framed(s) && HasMessage(s)
    ensures var rest := s[8 + |FirstMessage(s).payload|..];
            Framed(rest) && Decode(s) == [FirstMessage(s)] + Decode(rest)
  {
  }

  /** Bytes that arrive later do not change a message that is complete, and complete one that is not. */
  lemma MessageInPrefix(a: seq<byte>, b: seq<byte>)
    requires a != []
    ensures HasMessage(a) ==> HasMessage(a + b) && FirstMessage(a + b) == FirstMessage(a) && SizeOf(a + b) == SizeOf(a)
    ensures !HasMessage(a) && Framed(a + b) ==> b != []
  {
    if |a| >= 8 {
      assert (a + b)[..4] == a[..4] && (a + b)[4..8] == a[4..8];
    }
    if HasMessage(a) {
      assert (a + b)[8..8 + SizeOf(a)] == a[8..8 + SizeOf(a)];
    }
    if b == [] {
      assert a + b == a;
    }
  }

  /** Messages written later go after those written before. */
  lemma {:induction false} EncodeAppends(ms: seq<Message>, m: Message)
    ensures Encode(ms + [m]) == Encode(ms) + Frame(m)
  {
    if ms == [] {
      assert ms + [m] == [m];
      assert Encode([m]) == Frame(m) + Encode([m][1..]);
    } else {
      assert (ms + [m])[1..] == ms[1..] + [m];
      EncodeAppends(ms[1..], m);
      assert (ms + [m])[0] == ms[0];
    }
  }
}
