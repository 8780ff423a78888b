/** Fixed-width unsigned integers as bytes, most significant first. */
module BigEndian {

  type byte = n: int | 0 <= n < 256

  /** 256 to the given power: how many values that many bytes can tell apart. */
  function Values(width: nat): (n: int)
    ensures 1 <= n
  {
    if width == 0 then 1 else 256 * Values(width - 1)
  }

  lemma ValuesOfWords()
    ensures Values(2) == 0x1_0000 && Values(4) == 0x1_0000_0000 && Values(8) == 0x1_0000_0000_0000_0000
  {
    assert Values(1) == 256 && Values(3) == 0x100_0000;
    assert Values(5) == 256 * Values(4) && Values(6) == 256 * Values(5) && Values(7) == 256 * Values(6);
  }

  function Encode(v: nat, width: nat): (bytes: seq<byte>)
    ensures |bytes| == width
  {
    if width == 0 then [] else Encode(v / 256, width - 1) + [v % 256]
  }

  function Decode(bytes: seq<byte>): (v: nat)
    ensures v < Values(|bytes|)
  {
    if bytes == [] then 0 else Decode(bytes[..|bytes| - 1]) * 256 + bytes[|bytes| - 1]
  }

  lemma {:induction false} DecodeEncode(v: nat, width: nat)
    requires v < Values(width)
    ensures Decode(Encode(v, width)) == v
  {
    if width > 0 {
      DecodeEncode(v / 256, width - 1);
      assert Encode(v, width)[..width - 1] == Encode(v / 256, width - 1);
    }
  }

  lemma {:induction false} EncodeDecode(bytes: seq<byte>)
    ensures Encode(Decode(bytes), |bytes|) == bytes
  {
    if bytes != [] {
      EncodeDecode(bytes[..|bytes| - 1]);
      assert Decode(bytes) / 256 == Decode(bytes[..|bytes| - 1]);
      assert bytes == bytes[..|bytes| - 1] + [bytes[|bytes| - 1]];
    }
  }

  /** The bytes of a number: most significant first, byte i worth 256 to the power of the bytes after it. */
  lemma {:induction false} EncodeAt(v: nat, width: nat, i: nat)
    requires i < width
    ensures Encode(v, width)[i] == v / Values(width - 1 - i) % 256
  {
    if i < width - 1 {
      EncodeAt(v / 256, width - 1, i);
      QuotientOfQuotient(v, Values(width - 2 - i));
    }
  }

  /** Bytes that spell a number that way. */
  predicate Spells(bytes: seq<byte>, v: nat) {
    forall i :: 0 <= i < |bytes| ==> bytes[i] == v / Values(|bytes| - 1 - i) % 256
  }

  lemma EncodeSpells(v: nat, width: nat)
    ensures Spells(Encode(v, width), v)
  {
    forall i | 0 <= i < width
      ensures Encode(v, width)[i] == v / Values(width - 1 - i) % 256
    {
      EncodeAt(v, width, i);
    }
  }

  lemma QuotientOfQuotient(v: nat, d: nat)
    requires 0 < d
    ensures v / 256 / d == v / (256 * d)
  {
    var q, r := v / 256 / d, v / 256 % d;
    assert v / 256 == q * d + r;
    assert v == q * (256 * d) + (256 * r + v % 256);
    UniqueQuotient(v, 256 * d, q, 256 * r + v % 256);
  }

  lemma UniqueQuotient(v: nat, d: nat, q: nat, r: nat)
    requires v == q * d + r && r < d
    ensures v / d == q
  {
    var q' := v / d;
    assert v == q' * d + v % d;
    if q < q' {
      assert (q + 1) * d <= q' * d by { Scale(q + 1, q', d); }
    } else if q' < q {
      assert (q' + 1) * d <= q * d by { Scale(q' + 1, q, d); }
    }
  }

  lemma Scale(a: nat, b: nat, d: nat)
    requires a <= b
    ensures a * d <= b * d
  {
  }

  /** Writes an integer into a buffer, from the low byte down, and nothing else. */
  method Put(buf: array<byte>, at: nat, width: nat, v: nat)
    requires at + width <= buf.Length
    modifies buf
    ensures buf[at..at + width] == Encode(v, width)
    ensures forall i :: 0 <= i < at || at + width <= i < buf.Length ==> buf[i] == old(buf[i])
  {
    var rest, i := v, width;
    while 0 < i
      invariant 0 <= i <= width && 0 <= rest
      invariant forall j :: 0 <= j < at + i || at + width <= j < buf.Length ==> buf[j] == old(buf[j])
      invariant Encode(v, width) == Encode(rest, i) + buf[at + i..at + width]
    {
      i := i - 1;
      buf[at + i] := rest % 256;
      rest := rest / 256;
      assert buf[at + i..at + width] == [buf[at + i]] + buf[at + i + 1..at + width];
    }
  }
}
