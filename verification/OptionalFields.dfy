/** Optional elements in a fixed order: present exactly when the next tag is theirs. */
module OptionalFields {
  import opened Bytes
  import opened BerLength
  import opened TlvCodec

  function OptionalAt(buf: seq<byte>, pos: nat, tag: byte): (nat, Result<Option<seq<byte>>>) {
    if !NextTagIs(buf, pos, tag) then (pos, Ok(None))
    else
      var (after, value) := PrimitiveAt(buf, pos, tag);
      (after, match value case Err(e) => Err(e) case Ok(v) => Ok(Some(v)))
  }

  function EncodeOptional(tag: byte, value: Option<seq<byte>>): seq<byte> {
    match value
    case None => []
    case Some(v) => EncodePrimitive(tag, v)
  }

  method ReadOptional(reader: BerTlvReader, tag: byte) returns (r: Result<Option<seq<byte>>>)
    requires reader.Valid()
    modifies reader
    ensures reader.Valid()
    ensures (reader.pos, r) == OptionalAt(reader.buffer, old(reader.pos), tag)
  {
    if reader.pos < |reader.buffer| && reader.buffer[reader.pos] == tag {
      var value := reader.ReadPrimitive(tag);
      if value.Err? {
        return Err(value.error);
      }
      return Ok(Some(value.value));
    }
    return Ok(None);
  }

  ghost predicate Short(value: Option<seq<byte>>) {
    value.Some? ==> |value.value| < U32_LIMIT
  }

  /** What follows does not begin with a tag. */
  predicate NotNext(tag: byte, rest: seq<byte>) {
    rest == [] || rest[0] != tag
  }

  /** An optional element is read back as written, provided that, when it is absent, what
      follows does not begin with its tag. */
  lemma OptionalWritten(pre: seq<byte>, tag: byte, value: Option<seq<byte>>, rest: seq<byte>)
    requires Short(value) && (value.None? ==> NotNext(tag, rest))
    ensures var field := EncodeOptional(tag, value);
      OptionalAt(pre + field + rest, |pre|, tag) == (|pre| + |field|, Ok(value))
  {
    hide PrimitiveAt, EncodeLength;
    match value
    case None =>
      assert pre + [] + rest == pre + rest;
    case Some(v) =>
      PrimitiveRoundTrip(pre, tag, v, rest);
      assert (pre + EncodePrimitive(tag, v) + rest)[|pre|] == tag;
  }

  /** A field of one tag, present or not, does not begin with another that does not follow. */
  lemma NotNextField(tag: byte, other: byte, value: Option<seq<byte>>, rest: seq<byte>)
    requires tag != other && NotNext(tag, rest)
    ensures NotNext(tag, EncodeOptional(other, value) + rest)
  {
    hide EncodeLength;
    if value.None? {
      assert [] + rest == rest;
    }
  }

  lemma NotNextPrimitive(tag: byte, other: byte, value: seq<byte>, rest: seq<byte>)
    requires tag != other
    ensures NotNext(tag, EncodePrimitive(other, value) + rest)
  {
    hide EncodeLength;
  }

  // --- Exactly what is read -------------------------------------------------

  /** An element of a tag with a value, between two positions. */
  predicate IsPresent(buf: seq<byte>, pos: nat, tag: byte, after: nat, value: seq<byte>) {
    pos < after <= |buf| && IsElement(buf[pos..after], tag, value)
  }

  /** The same, or nothing where the tag does not stand. */
  predicate IsOptional(buf: seq<byte>, pos: nat, tag: byte, after: nat, value: Option<seq<byte>>) {
    match value
    case None => after == pos && (pos >= |buf| || buf[pos] != tag)
    case Some(v) => IsPresent(buf, pos, tag, after, v)
  }

  /** The tag and any length field, between two positions. */
  ghost predicate IsEntered(buf: seq<byte>, pos: nat, tag: byte, after: nat) {
    pos < |buf| && buf[pos] == tag && exists n :: FieldAfter(buf, pos, after, n)
  }

  lemma PresentExactly(buf: seq<byte>, pos: nat, tag: byte, after: nat, value: seq<byte>)
    ensures PrimitiveAt(buf, pos, tag) == (after, Ok(value)) <==> IsPresent(buf, pos, tag, after, value)
  {
    hide PrimitiveAt, IsElement;
    PrimitiveExactly(buf, pos, tag, after, value);
  }

  lemma PresentTag(buf: seq<byte>, pos: nat, tag: byte, after: nat, value: seq<byte>)
    requires IsPresent(buf, pos, tag, after, value)
    ensures pos < |buf| && buf[pos] == tag
  {
    hide IsField;
  }

  /** Exactly when an optional field is read, present or not. */
  lemma OptionalExactly(buf: seq<byte>, pos: nat, tag: byte, after: nat, value: Option<seq<byte>>)
    ensures OptionalAt(buf, pos, tag) == (after, Ok(value)) <==> IsOptional(buf, pos, tag, after, value)
  {
    hide PrimitiveAt, IsElement, IsPresent;
    if value.Some? {
      PresentExactly(buf, pos, tag, after, value.value);
      if IsPresent(buf, pos, tag, after, value.value) {
        PresentTag(buf, pos, tag, after, value.value);
      }
    }
  }

  lemma EnteredTag(buf: seq<byte>, pos: nat, tag: byte, after: nat)
    requires IsEntered(buf, pos, tag, after)
    ensures pos < |buf| && buf[pos] == tag
  {
  }

  /** Exactly when an element is entered: whatever its length field says. */
  lemma EnteredExactly(buf: seq<byte>, pos: nat, tag: byte, after: nat)
    ensures (EnterAt(buf, pos, tag).0 == after && EnterAt(buf, pos, tag).1.Ok?) <==> IsEntered(buf, pos, tag, after)
  {
    hide DecodeLength, IsField;
    if EnterAt(buf, pos, tag).1.Ok? {
      var n := EnterAt(buf, pos, tag).1.value;
      DecodedExactly(buf, pos + 1, n, EnterAt(buf, pos, tag).0);
      assert FieldAfter(buf, pos, EnterAt(buf, pos, tag).0, n);
    }
    if IsEntered(buf, pos, tag, after) {
      var n :| FieldAfter(buf, pos, after, n);
      DecodedExactly(buf, pos + 1, n, after);
    }
  }
}
