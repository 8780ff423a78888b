/** The probe packet on the wire, and the delays computed from four timestamps. */
module ProbeProtocol {
  import opened Prelude
  import opened BigEndian

  const MAGIC: uint32 := 0x4D43_5450
  const VERSION: byte := 1
  const TYPE_REQUEST: byte := 1
  const TYPE_REPLY: byte := 2
  const REQUEST_SIZE := 32
  const REPLY_SIZE := 48

  const TWO_TO_THE_63: int := 0x8000_0000_0000_0000
  const TWO_TO_THE_64: int := 0x1_0000_0000_0000_0000

  type uint16 = n: int | 0 <= n < 0x1_0000
  type int64 = n: int | -TWO_TO_THE_63 <= n < TWO_TO_THE_63

  datatype Packet = Packet(magic: uint32, version: byte, kind: byte, seqno: uint16, t1: int64, t2: int64, t3: int64)

  datatype Error = TooShort | BadMagic | UnsupportedVersion | ReplyTooShort | UnknownType

  datatype Result<+T> = Ok(value: T) | Err(error: Error)

  /** The two's-complement reading of 64 bits, and back. */
  function Signed(n: int): int64
    requires 0 <= n < TWO_TO_THE_64
  {
    if n < TWO_TO_THE_63 then n else n - TWO_TO_THE_64
  }

  function Unsigned(n: int64): (u: int)
    ensures 0 <= u < TWO_TO_THE_64 && Signed(u) == n
  {
    if n < 0 then n + TWO_TO_THE_64 else n
  }

  function Zeros(n: nat): seq<byte> {
    seq(n, _ => 0)
  }

  function Header(p: Packet): (bytes: seq<byte>)
    ensures |bytes| == 16
  {
    Encode(p.magic, 4) + [p.version, p.kind] + Encode(p.seqno, 2) + Encode(Unsigned(p.t1), 8)
  }

  /** The wire format. */
  function Wire(p: Packet): Result<seq<byte>> {
    if p.kind == TYPE_REQUEST then Ok(Header(p) + Zeros(16))
    else if p.kind == TYPE_REPLY then
      Ok(Header(p) + Encode(Unsigned(p.t2), 8) + Encode(Unsigned(p.t3), 8) + Zeros(16))
    else Err(UnknownType)
  }

  method Marshal(p: Packet) returns (ok: bool, buf: array<byte>)
    ensures ok == Wire(p).Ok? && fresh(buf)
    ensures ok ==> Wire(p) == Ok(buf[..])
  {
    if p.kind == TYPE_REQUEST {
      buf := new byte[REQUEST_SIZE](_ => 0);
      PutHeader(buf, p);
      assert buf[16..] == Zeros(16);
      assert buf[..] == buf[..16] + buf[16..];
      ok := true;
    } else if p.kind == TYPE_REPLY {
      buf := new byte[REPLY_SIZE](_ => 0);
      PutHeader(buf, p);
      Put(buf, 16, 8, Unsigned(p.t2));
      Put(buf, 24, 8, Unsigned(p.t3));
      assert buf[..16] == Header(p);
      assert buf[16..24] == Encode(Unsigned(p.t2), 8);
      assert buf[32..] == Zeros(16);
      assert buf[..] == buf[..16] + buf[16..24] + buf[24..32] + buf[32..];
      ok := true;
    } else {
      buf := new byte[0];
      ok := false;
    }
  }

  method PutHeader(buf: array<byte>, p: Packet)
    requires 16 <= buf.Length
    modifies buf
    ensures buf[..16] == Header(p)
    ensures forall i :: 16 <= i < buf.Length ==> buf[i] == old(buf[i])
  {
    Put(buf, 0, 4, p.magic);
    buf[4] := p.version;
    buf[5] := p.kind;
    Put(buf, 6, 2, p.seqno);
    Put(buf, 8, 8, Unsigned(p.t1));
    assert buf[0..4] == Encode(p.magic, 4) && buf[6..8] == Encode(p.seqno, 2);
    assert buf[..16] == buf[0..4] + [buf[4], buf[5]] + buf[6..8] + buf[8..16];
  }

  /** Two's complement: the word is the number modulo 2^64. */
  lemma UnsignedIsModular(n: int64)
    ensures Unsigned(n) == n % TWO_TO_THE_64
  {
  }

  /**
   * The layout on the wire: magic 4D 43 54 50, version, type, sequence number, then the timestamps,
   * all most significant byte first, then zeros; 32 bytes for a request and 48 for a reply.
   */
  lemma {:induction false} WireLayout(p: Packet)
    requires Wire(p).Ok?
    ensures var bytes := Wire(p).value;
            && |bytes| == (if p.kind == 1 then 32 else 48)
            && (p.magic == MAGIC ==> bytes[0..4] == [0x4D, 0x43, 0x54, 0x50])
            && Spells(bytes[0..4], p.magic) && bytes[4] == p.version && bytes[5] == p.kind
            && Spells(bytes[6..8], p.seqno) && Spells(bytes[8..16], p.t1 % TWO_TO_THE_64)
            && (p.kind == 2 ==> Spells(bytes[16..24], p.t2 % TWO_TO_THE_64) && Spells(bytes[24..32], p.t3 % TWO_TO_THE_64))
            && forall i :: (if p.kind == 1 then 16 else 32) <= i < |bytes| ==> bytes[i] == 0
  {
    HeaderLayout(p, Wire(p).value);
    if p.kind == 2 {
      var bytes := Wire(p).value;
      WordSpells(p.t2);
      WordSpells(p.t3);
      assert bytes[16..24] == Encode(Unsigned(p.t2), 8) && bytes[24..32] == Encode(Unsigned(p.t3), 8);
    }
  }

  lemma HeaderLayout(p: Packet, bytes: seq<byte>)
    requires 16 <= |bytes| && bytes[..16] == Header(p)
    ensures Spells(bytes[0..4], p.magic) && bytes[4] == p.version && bytes[5] == p.kind
    ensures Spells(bytes[6..8], p.seqno) && Spells(bytes[8..16], p.t1 % TWO_TO_THE_64)
    ensures p.magic == MAGIC ==> bytes[0..4] == [0x4D, 0x43, 0x54, 0x50]
  {
    EncodeSpells(p.magic, 4);
    EncodeSpells(p.seqno, 2);
    WordSpells(p.t1);
    MagicBytes();
    assert bytes[0..4] == Header(p)[0..4] == Encode(p.magic, 4);
    assert bytes[6..8] == Header(p)[6..8] == Encode(p.seqno, 2);
    assert bytes[8..16] == Header(p)[8..16] == Encode(Unsigned(p.t1), 8);
  }

  lemma WordSpells(t: int64)
    ensures Spells(Encode(Unsigned(t), 8), t % TWO_TO_THE_64)
  {
    EncodeSpells(Unsigned(t), 8);
    UnsignedIsModular(t);
  }

  lemma MagicBytes()
    ensures Encode(MAGIC, 4) == [0x4D, 0x43, 0x54, 0x50]
  {
    assert Encode(0x4D, 1) == [0x4D];
    assert Encode(0x4D43, 2) == [0x4D, 0x43];
    assert Encode(0x4D_4354, 3) == [0x4D, 0x43, 0x54];
  }

  /** The 64-bit field at an offset. */
  function Word(data: seq<byte>, at: nat): int64
    requires at + 8 <= |data|
  {
    ValuesOfWords();
    Signed(Decode(data[at..at + 8]))
  }

  /** Which packet the bytes stand for; the checks in the order of the code. */
  function Parse(data: seq<byte>): Result<Packet> {
    ValuesOfWords();
    if |data| < REQUEST_SIZE then Err(TooShort)
    else if Decode(data[..4]) != MAGIC then Err(BadMagic)
    else if data[4] != VERSION then Err(UnsupportedVersion)
    else if data[5] != TYPE_REPLY then
      Ok(Packet(MAGIC, VERSION, data[5], Decode(data[6..8]), Word(data, 8), 0, 0))
    else if |data| < REPLY_SIZE then Err(ReplyTooShort)
    else Ok(Packet(MAGIC, VERSION, data[5], Decode(data[6..8]), Word(data, 8), Word(data, 16), Word(data, 24)))
  }

  method Unmarshal(data: seq<byte>) returns (r: Result<Packet>)
    ensures r == Parse(data)
  {
    ValuesOfWords();
    if |data| < REQUEST_SIZE {
      return Err(TooShort);
    }
    var p := Packet(Decode(data[..4]), 0, 0, 0, 0, 0, 0);
    if p.magic != MAGIC {
      return Err(BadMagic);
    }
    p := p.(version := data[4]);
    if p.version != VERSION {
      return Err(UnsupportedVersion);
    }
    p := p.(kind := data[5], seqno := Decode(data[6..8]), t1 := Word(data, 8));
    if p.kind == TYPE_REPLY {
      if |data| < REPLY_SIZE {
        return Err(ReplyTooShort);
      }
      p := p.(t2 := Word(data, 16), t3 := Word(data, 24));
    }
    return Ok(p);
  }

  /** Which bytes are accepted, and what is complained about first in the others. */
  lemma {:induction false} AcceptedIff(data: seq<byte>)
    ensures Parse(data).Ok? <==>
              && 32 <= |data| && data[..4] == [0x4D, 0x43, 0x54, 0x50] && data[4] == 1
              && (data[5] == 2 ==> 48 <= |data|)
    ensures Parse(data) == Err(TooShort) <==> |data| < 32
    ensures Parse(data) == Err(BadMagic) <==> 32 <= |data| && data[..4] != [0x4D, 0x43, 0x54, 0x50]
    ensures Parse(data) == Err(UnsupportedVersion)
            <==> 32 <= |data| && data[..4] == [0x4D, 0x43, 0x54, 0x50] && data[4] != 1
  {
    if 32 <= |data| {
      EncodeDecode(data[..4]);
      ValuesOfWords();
      DecodeEncode(MAGIC, 4);
      MagicBytes();
    }
  }

  /**
   * A packet survives the wire, whatever bytes follow it, exactly if it is of this protocol and
   * is a reply, or a request that carries no responder timestamps.
   */
  lemma RoundTrip(p: Packet, trailing: seq<byte>)
    requires Wire(p).Ok?
    ensures Parse(Wire(p).value + trailing) == Ok(p)
            <==> && p.magic == MAGIC && p.version == VERSION
                 && (p.kind == TYPE_REQUEST ==> p.t2 == p.t3 == 0)
  {
    var data := Wire(p).value + trailing;
    ParseHeader(p, data);
    if p.kind == TYPE_REPLY {
      WordAt(data, 16, p.t2);
      WordAt(data, 24, p.t3);
    }
  }

  lemma WordAt(data: seq<byte>, at: nat, t: int64)
    requires at + 8 <= |data| && data[at..at + 8] == Encode(Unsigned(t), 8)
    ensures Word(data, at) == t
  {
    ValuesOfWords();
    DecodeEncode(Unsigned(t), 8);
  }

  lemma ParseHeader(p: Packet, data: seq<byte>)
    requires 16 <= |data| && data[..16] == Header(p)
    ensures Decode(data[..4]) == p.magic && data[4] == p.version && data[5] == p.kind
    ensures Decode(data[6..8]) == p.seqno && Word(data, 8) == p.t1
  {
    ValuesOfWords();
    assert data[..4] == Header(p)[..4] == Encode(p.magic, 4);
    DecodeEncode(p.magic, 4);
    assert data[6..8] == Header(p)[6..8] == Encode(p.seqno, 2);
    DecodeEncode(p.seqno, 2);
    assert data[8..16] == Header(p)[8..16] == Encode(Unsigned(p.t1), 8);
    WordAt(data, 8, p.t1);
  }

  /** Marshalling what was accepted gives back the bytes, with the padding zeroed. */
  lemma Remarshal(data: seq<byte>)
    requires Parse(data).Ok?
    ensures var p := Parse(data).value;
            if p.kind == TYPE_REPLY then Wire(p) == Ok(data[..32] + Zeros(16))
            else if p.kind == TYPE_REQUEST then Wire(p) == Ok(data[..16] + Zeros(16))
            else Wire(p) == Err(UnknownType)
  {
    var p := Parse(data).value;
    HeaderOfParsed(data);
    if p.kind == TYPE_REPLY {
      EncodeWord(data, 16);
      EncodeWord(data, 24);
      assert data[..32] == data[..16] + data[16..24] + data[24..32];
    }
  }

  lemma HeaderOfParsed(data: seq<byte>)
    requires Parse(data).Ok?
    ensures Header(Parse(data).value) == data[..16]
  {
    EncodeDecode(data[..4]);
    EncodeDecode(data[6..8]);
    EncodeWord(data, 8);
    assert data[..16] == data[..4] + [data[4], data[5]] + data[6..8] + data[8..16];
  }

  lemma EncodeWord(data: seq<byte>, at: nat)
    requires at + 8 <= |data|
    ensures Encode(Unsigned(Word(data, at)), 8) == data[at..at + 8]
  {
    ValuesOfWords();
    EncodeDecode(data[at..at + 8]);
  }

  // ---------------------------------------------------------------- delays

  /** Go's int64 addition and subtraction wrap around; one correction is always enough. */
  function Fold(n: int): int64
    requires -TWO_TO_THE_64 <= n < TWO_TO_THE_64
  {
    if n < -TWO_TO_THE_63 then n + TWO_TO_THE_64
    else if TWO_TO_THE_63 <= n then n - TWO_TO_THE_64
    else n
  }

  function Add(a: int64, b: int64): int64 {
    Fold(a + b)
  }

  function Sub(a: int64, b: int64): int64 {
    Fold(a - b)
  }

  predicate InInt64(n: int) {
    -TWO_TO_THE_63 <= n < TWO_TO_THE_63
  }

  datatype ProbeResult = ProbeResult(peer: string, forwardDelay: int64, returnDelay: int64,
                                     rtt: int64, clockOffset: int64, valid: bool)

  function ComputeResult(peer: string, t1: int64, t2: int64, t3: int64, t4: int64): ProbeResult {
    var forward, back := Sub(t2, t1), Sub(t4, t3);
    ProbeResult(peer, forward, back, Sub(Sub(t4, t1), Sub(t3, t2)), TruncDiv(Sub(forward, back), 2), 0 < forward)
  }

  /**
   * What is measured: over a path that takes a out and b back, to a responder whose clock is ahead by
   * shift and that works for a while, the forward delay is a + shift, the return delay b - shift, the
   * round trip a + b without the work, and the offset the shift if both ways take the same.
   */
  lemma MeasuresPath(t1: int64, a: int64, work: int64, b: int64, shift: int64)
    requires InInt64(t1 + a + shift) && InInt64(t1 + a + shift + work) && InInt64(t1 + a + work) && InInt64(t1 + a + work + b)
    requires InInt64(a + shift) && InInt64(b - shift) && InInt64(a + work + b) && InInt64(a + b) && InInt64(a - b + 2 * shift)
    ensures var r := ComputeResult("", t1, t1 + a + shift, t1 + a + shift + work, t1 + a + work + b);
            && r.forwardDelay == a + shift && r.returnDelay == b - shift && r.rtt == a + b
            && r.clockOffset == TruncDiv(a - b + 2 * shift, 2) && (a == b ==> r.clockOffset == shift)
            && (r.valid <==> 0 < a + shift)
  {
  }

  /** A result is called invalid for a negative forward delay; the code agrees exactly if that is not zero. */
  lemma InvalidIffNegativeIff(t1: int64, t2: int64, t3: int64, t4: int64)
    ensures var r := ComputeResult("", t1, t2, t3, t4);
            (!r.valid <==> r.forwardDelay < 0) <==> t1 != t2
  {
  }

  /** Folding changes a number by a multiple of 2^64 ... */
  function Folded(n: int): (k: int)
    requires -TWO_TO_THE_64 <= n < TWO_TO_THE_64
    ensures Fold(n) == n + k * TWO_TO_THE_64
  {
    if n < -TWO_TO_THE_63 then 1 else if TWO_TO_THE_63 <= n then -1 else 0
  }

  /** ... and int64 holds one number of each kind. */
  lemma SameInt64(a: int64, b: int64, k: int)
    requires a == b + k * TWO_TO_THE_64
    ensures a == b
  {
  }

  /** The round trip is the sum of both ways, as int64 even where single differences overflow. */
  lemma RttIsForwardPlusReturn(t1: int64, t2: int64, t3: int64, t4: int64)
    ensures var r := ComputeResult("", t1, t2, t3, t4);
            && r.rtt == Add(r.forwardDelay, r.returnDelay)
            && (InInt64(r.forwardDelay + r.returnDelay) ==> r.rtt == r.forwardDelay + r.returnDelay)
  {
    var whole: int, processing: int := Sub(t4, t1), Sub(t3, t2);
    var forward: int, back: int := Sub(t2, t1), Sub(t4, t3);
    var k1, k2, k3 := Folded(t4 - t1), Folded(t3 - t2), Folded(whole - processing);
    var k4, k5, k6 := Folded(t2 - t1), Folded(t4 - t3), Folded(forward + back);
    SameInt64(Sub(whole, processing), Add(forward, back), k1 - k2 + k3 - k4 - k5 - k6);
  }

  lemma ShiftedDifference(a: int64, b: int64, shift: int64)
    ensures Sub(Add(a, shift), b) == Add(Sub(a, b), shift)
    ensures Sub(b, Add(a, shift)) == Sub(Sub(b, a), shift)
  {
    var c: int := Add(a, shift);
    var k1, k2, k3 := Folded(a + shift), Folded(c - b), Folded(b - c);
    var k4, k5 := Folded(a - b), Folded(Sub(a, b) + shift);
    SameInt64(Sub(c, b), Add(Sub(a, b), shift), k1 + k2 - k4 - k5);
    var k6, k7 := Folded(b - a), Folded(Sub(b, a) - shift);
    SameInt64(Sub(b, c), Sub(Sub(b, a), shift), k3 - k1 - k6 - k7);
  }

  lemma ShiftsCancel(a: int64, b: int64, shift: int64)
    ensures Sub(Add(a, shift), Add(b, shift)) == Sub(a, b)
  {
    var c: int, d: int := Add(a, shift), Add(b, shift);
    var k1, k2, k3, k4 := Folded(a + shift), Folded(b + shift), Folded(c - d), Folded(a - b);
    SameInt64(Sub(c, d), Sub(a, b), k1 - k2 + k3 - k4);
  }

  /**
   * Setting the responder's clock by any amount, overflow included, leaves the round trip alone
   * and moves the forward delay by exactly that amount and the return delay by its negation.
   */
  lemma ClockShift(t1: int64, t2: int64, t3: int64, t4: int64, shift: int64)
    ensures var r, r' := ComputeResult("", t1, t2, t3, t4),
                         ComputeResult("", t1, Add(t2, shift), Add(t3, shift), t4);
            && r'.rtt == r.rtt
            && r'.forwardDelay == Add(r.forwardDelay, shift)
            && r'.returnDelay == Sub(r.returnDelay, shift)
  {
    ShiftsCancel(t3, t2, shift);
    ShiftedDifference(t2, t1, shift);
    ShiftedDifference(t3, t4, shift);
  }

  /**
   * The estimated clock offset follows such a shift exactly when the two delays differ by an even
   * amount or their difference keeps its sign; otherwise rounding toward zero is off by one.
   */
  lemma OffsetFollowsShiftIff(t1: int64, t2: int64, t3: int64, t4: int64, shift: int64)
    requires InInt64(t2 + shift) && InInt64(t3 + shift)
    requires var forward, back := t2 - t1, t4 - t3;
             && InInt64(forward) && InInt64(back) && InInt64(forward - back)
             && InInt64(forward + shift) && InInt64(back - shift) && InInt64(forward - back + 2 * shift)
    ensures var r, r' := ComputeResult("", t1, t2, t3, t4), ComputeResult("", t1, t2 + shift, t3 + shift, t4);
            var x := r.forwardDelay - r.returnDelay;
            r'.clockOffset == r.clockOffset + shift
            <==> x % 2 == 0 || (x < 0 <==> x + 2 * shift < 0)
  {
    HalfOfShifted((t2 - t1) - (t4 - t3), shift);
  }

  /** It is off whenever 1 and 2 nanoseconds of delay become 2 and 1: the offset stays 0 under a shift of 1. */
  lemma OffsetMissesShift(t: int64)
    requires InInt64(t + 3)
    ensures ComputeResult("", t, t + 1, t + 1, t + 3).clockOffset == 0
    ensures ComputeResult("", t, t + 1 + 1, t + 1 + 1, t + 3).clockOffset == 0
  {
    MeasuresPath(t, 1, 0, 2, 0);
    MeasuresPath(t, 1, 0, 2, 1);
  }

  lemma HalfOfShifted(x: int, shift: int)
    ensures TruncDiv(x + 2 * shift, 2) == TruncDiv(x, 2) + shift
            <==> x % 2 == 0 || (x < 0 <==> x + 2 * shift < 0)
  {
  }
}
