/** BER length fields (ITU-T X.690, section 8.1.3): short form, or a count byte 0x81-0x84
    followed by that many big-endian bytes. The metadata codec uses them as plain numbers. */
module BerLength {
  import opened Bytes

  const U32_LIMIT := 0x1_0000_0000

  /** Only the low 32 bits of a number are written. */
  function EncodeLength(n: nat): (field: seq<byte>)
    ensures 1 <= |field| <= 5
  {
    if n < 0x80 then [n]
    else if n < 0x100 then [0x81] + BytesOf(n, 1)
    else if n < 0x1_0000 then [0x82] + BytesOf(n, 2)
    else if n < 0x100_0000 then [0x83] + BytesOf(n, 3)
    else [0x84] + BytesOf(n, 4)
  }

  /** The value of the field at `off` and the offset just after it. */
  function DecodeLength(data: seq<byte>, off: nat): Result<(nat, nat)> {
    if off >= |data| then Err(Tlv)
    else
      var first: int := data[off];
      if first < 0x80 then Ok((first, off + 1))
      else if first == 0x80 || first > 0x84 then Err(Tlv)
      else
        var end := off + 1 + (first - 0x80);
        if end > |data| then Err(Tlv)
        else Ok((BigEndian(data[off + 1..end]), end))
  }

  method DecodeBerLength(data: seq<byte>, off: nat) returns (r: Result<(nat, nat)>)
    ensures r == DecodeLength(data, off)
  {
    if off >= |data| {
      return Err(Tlv);
    }
    var first: int := data[off];
    var pos := off + 1;
    if first < 0x80 {
      return Ok((first, pos));
    } else if first == 0x80 {
      return Err(Tlv);
    }
    var numBytes := first % 0x80;
    if numBytes > 4 {
      return Err(Tlv);
    }
    if pos + numBytes > |data| {
      return Err(Tlv);
    }
    var len: nat := 0;
    for i := 0 to numBytes
      invariant len == BigEndian(data[pos..pos + i])
    {
      assert data[pos..pos + i + 1][..i] == data[pos..pos + i];
      len := 256 * len + data[pos + i];
    }
    return Ok((len, pos + numBytes));
  }

  /** The bytes after the count byte carry the low 32 bits. */
  lemma EncodedTail(n: nat)
    requires n >= 0x80
    ensures var field := EncodeLength(n);
      field[0] == 0x80 + |field| - 1 && BigEndian(field[1..]) == n % U32_LIMIT
  {
    hide BytesOf, BigEndian;
    var k := |EncodeLength(n)| - 1;
    assert EncodeLength(n)[1..] == BytesOf(n, k);
    BytesOfValue(n, k);
    Pow256Values();
  }

  /** A complete field is decoded from its own bytes, whatever surrounds it. */
  lemma FieldAt(pre: seq<byte>, field: seq<byte>, suffix: seq<byte>)
    requires field != []
    requires if |field| == 1 then field[0] < 0x80 else |field| <= 5 && field[0] == 0x80 + |field| - 1
    ensures DecodeLength(pre + field + suffix, |pre|)
      == Ok((if field[0] < 0x80 then field[0] else BigEndian(field[1..]), |pre| + |field|))
  {
    hide BigEndian;
    var data := pre + field + suffix;
    assert data[|pre|] == field[0];
    assert data[|pre| + 1..|pre| + |field|] == field[1..];
  }

  /** Whatever surrounds it, the field written for a number is read back as that number,
      ending exactly after the field, if and only if the number is below 2^32; a larger one
      comes back reduced modulo 2^32. */
  lemma LengthRoundTrip(pre: seq<byte>, n: nat, suffix: seq<byte>)
    ensures var field := EncodeLength(n);
      DecodeLength(pre + field + suffix, |pre|) == Ok((n % U32_LIMIT, |pre| + |field|))
    ensures var field := EncodeLength(n);
      DecodeLength(pre + field + suffix, |pre|) == Ok((n, |pre| + |field|)) <==> n < U32_LIMIT
  {
    if n >= 0x80 {
      EncodedTail(n);
    }
    FieldAt(pre, EncodeLength(n), suffix);
  }

  /** A field and the number it denotes: one byte below 0x80, or a count of one to four and as
      many bytes, most significant first, of which the first may be zero. */
  predicate IsField(field: seq<byte>, n: nat) {
    || (|field| == 1 && field[0] < 0x80 && n == field[0])
    || (2 <= |field| <= 5 && field[0] == 0x80 + |field| - 1 && n == BigEndian(field[1..]))
  }

  /** Exactly what is decoded, wherever it stands: the field there, with its number and its end.
      Anything else is refused, among it the count byte 0x80 of the indefinite form. */
  lemma DecodedExactly(data: seq<byte>, off: nat, n: nat, next: nat)
    ensures DecodeLength(data, off) == Ok((n, next)) <==> off < next <= |data| && IsField(data[off..next], n)
    ensures DecodeLength(data, off).Err? ==> DecodeLength(data, off) == Err(Tlv)
  {
    hide BigEndian;
    if off < next <= |data| {
      assert data[off..next][1..] == data[off + 1..next];
    }
  }

  /** Every accepted field lies within the data, and denotes a number below 2^32 whose own
      encoding is at most as long: the encoder writes the shortest field for its value. */
  lemma DecodedFieldIsBounded(data: seq<byte>, off: nat)
    requires DecodeLength(data, off).Ok?
    ensures var (n, next) := DecodeLength(data, off).value;
      && off < next <= |data|
      && n < U32_LIMIT
      && |EncodeLength(n)| <= next - off
  {
    var (n, next) := DecodeLength(data, off).value;
    if data[off] >= 0x80 {
      BigEndianBound(data[off + 1..next]);
      Pow256Values();
    }
  }

  /** A larger number never has a shorter field. */
  lemma LengthSizeMonotone(m: nat, n: nat)
    requires m <= n
    ensures |EncodeLength(m)| <= |EncodeLength(n)|
  {
  }

  /** Joining two counts costs at most the bytes of both. */
  lemma LengthSizeSubadditive(a: nat, b: nat, c: nat)
    requires c <= a + b + 1
    ensures |EncodeLength(c)| <= |EncodeLength(a)| + |EncodeLength(b)|
  {
  }
}
