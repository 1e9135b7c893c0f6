/** BER-TLV reading and writing with a cursor and an output buffer. */
module TlvCodec {
  import opened Bytes
  import opened BerLength

  const TLV_BOOL: byte := 0x01
  const TLV_INT: byte := 0x02

  // --- Reading: what each read returns, and where it leaves the cursor --------

  function ReadTagAt(buf: seq<byte>, pos: nat): (nat, Result<byte>) {
    if pos >= |buf| then (pos, Err(Tlv)) else (pos + 1, Ok(buf[pos]))
  }

  function ReadLengthAt(buf: seq<byte>, pos: nat): (nat, Result<nat>) {
    match DecodeLength(buf, pos)
    case Err(e) => (pos, Err(e))
    case Ok((len, next)) => (next, Ok(len))
  }

  /** The tag is consumed even if it is not the expected one. */
  function EnterAt(buf: seq<byte>, pos: nat, tag: byte): (nat, Result<nat>) {
    var (after, actual) := ReadTagAt(buf, pos);
    match actual
    case Err(e) => (after, Err(e))
    case Ok(t) => if t != tag then (after, Err(Tlv)) else ReadLengthAt(buf, after)
  }

  function PrimitiveAt(buf: seq<byte>, pos: nat, tag: byte): (nat, Result<seq<byte>>) {
    var (after, length) := EnterAt(buf, pos, tag);
    match length
    case Err(e) => (after, Err(e))
    case Ok(len) =>
      if after + len > |buf| then (after, Err(Tlv)) else (after + len, Ok(buf[after..after + len]))
  }

  function BooleanAt(buf: seq<byte>, pos: nat): (nat, Result<bool>) {
    var (after, value) := PrimitiveAt(buf, pos, TLV_BOOL);
    match value
    case Err(e) => (after, Err(e))
    case Ok(v) => if |v| != 1 then (after, Err(Tlv)) else (after, Ok(v[0] == 0xFF))
  }

  /** The 32-bit two's complement reading of a number. */
  function ToI32(n: int): (i: int)
    ensures -0x8000_0000 <= i < 0x8000_0000
  {
    var low := n % 0x1_0000_0000;
    if low < 0x8000_0000 then low else low - 0x1_0000_0000
  }

  function IntegerAt(buf: seq<byte>, pos: nat): (nat, Result<int>) {
    var (after, value) := PrimitiveAt(buf, pos, TLV_INT);
    match value
    case Err(e) => (after, Err(e))
    case Ok(v) => if v == [] || |v| > 4 then (after, Err(Tlv)) else (after, Ok(ToI32(BigEndian(v))))
  }

  predicate NextTagIs(buf: seq<byte>, pos: nat, tag: byte) {
    pos < |buf| && buf[pos] == tag
  }

  lemma ToI32Shift(n: int, b: byte)
    ensures ToI32(256 * ToI32(n) + b) == ToI32(256 * n + b)
  {
    var k := n / 0x1_0000_0000;
    assert n == 0x1_0000_0000 * k + n % 0x1_0000_0000;
    assert exists j :: n == ToI32(n) + 0x1_0000_0000 * j by {
      assert n == ToI32(n) + 0x1_0000_0000 * (if ToI32(n) < 0 then k + 1 else k);
    }
    var j :| n == ToI32(n) + 0x1_0000_0000 * j;
    Wraps(256 * ToI32(n) + b, 256 * j);
  }

  lemma Wraps(n: int, j: int)
    ensures (n + 0x1_0000_0000 * j) % 0x1_0000_0000 == n % 0x1_0000_0000
  {
  }

  class BerTlvReader {
    const buffer: seq<byte>
    var pos: nat

    ghost predicate Valid()
      reads this
    {
      pos <= |buffer|
    }

    constructor (buffer: seq<byte>)
      ensures Valid() && this.buffer == buffer && pos == 0
    {
      this.buffer := buffer;
      pos := 0;
    }

    method ReadTag() returns (r: Result<byte>)
      requires Valid()
      modifies this
      ensures Valid() && (pos, r) == ReadTagAt(buffer, old(pos))
    {
      if pos >= |buffer| {
        return Err(Tlv);
      }
      var tag := buffer[pos];
      pos := pos + 1;
      return Ok(tag);
    }

    method ReadLength() returns (r: Result<nat>)
      requires Valid()
      modifies this
      ensures Valid() && (pos, r) == ReadLengthAt(buffer, old(pos))
    {
      var decoded := DecodeBerLength(buffer, pos);
      if decoded.Err? {
        return Err(decoded.error);
      }
      DecodedFieldIsBounded(buffer, pos);
      pos := decoded.value.1;
      return Ok(decoded.value.0);
    }

    method EnterConstructed(tag: byte) returns (r: Result<nat>)
      requires Valid()
      modifies this
      ensures Valid() && (pos, r) == EnterAt(buffer, old(pos), tag)
    {
      var actual := ReadTag();
      if actual.Err? {
        return Err(actual.error);
      }
      if actual.value != tag {
        return Err(Tlv);
      }
      r := ReadLength();
    }

    method ReadPrimitive(tag: byte) returns (r: Result<seq<byte>>)
      requires Valid()
      modifies this
      ensures Valid() && (pos, r) == PrimitiveAt(buffer, old(pos), tag)
    {
      var actual := ReadTag();
      if actual.Err? {
        return Err(actual.error);
      }
      if actual.value != tag {
        return Err(Tlv);
      }
      var len := ReadLength();
      if len.Err? {
        return Err(len.error);
      }
      if pos + len.value > |buffer| {
        return Err(Tlv);
      }
      var value := buffer[pos..pos + len.value];
      pos := pos + len.value;
      return Ok(value);
    }

    method ReadBoolean() returns (r: Result<bool>)
      requires Valid()
      modifies this
      ensures Valid() && (pos, r) == BooleanAt(buffer, old(pos))
    {
      var value := ReadPrimitive(TLV_BOOL);
      if value.Err? {
        return Err(value.error);
      }
      if |value.value| != 1 {
        return Err(Tlv);
      }
      return Ok(value.value[0] == 0xFF);
    }

    /** Shifts the bytes in from the right, in 32-bit arithmetic. */
    method ReadInteger() returns (r: Result<int>)
      requires Valid()
      modifies this
      ensures Valid() && (pos, r) == IntegerAt(buffer, old(pos))
    {
      var value := ReadPrimitive(TLV_INT);
      if value.Err? {
        return Err(value.error);
      }
      var bytes := value.value;
      if bytes == [] || |bytes| > 4 {
        return Err(Tlv);
      }
      var result := 0;
      ghost var at := pos;
      for i := 0 to |bytes|
        invariant pos == at
        invariant result == ToI32(BigEndian(bytes[..i]))
      {
        assert bytes[..i + 1][..i] == bytes[..i];
        ToI32Shift(BigEndian(bytes[..i]), bytes[i]);
        result := ToI32(256 * result + bytes[i]);
      }
      assert bytes[..|bytes|] == bytes;
      return Ok(result);
    }
  }

  // --- Writing --------------------------------------------------------------

  function EncodePrimitive(tag: byte, value: seq<byte>): seq<byte> {
    [tag] + EncodeLength(|value|) + value
  }

  datatype Tree = Primitive(tag: byte, value: seq<byte>) | Constructed(tag: byte, children: seq<Tree>)

  function EncodeTree(t: Tree): seq<byte>
    decreases t
  {
    match t
    case Primitive(tag, value) => EncodePrimitive(tag, value)
    case Constructed(tag, children) => EncodePrimitive(tag, EncodeForest(children))
  }

  function EncodeForest(ts: seq<Tree>): seq<byte>
    decreases ts
  {
    if ts == [] then [] else EncodeTree(ts[0]) + EncodeForest(ts[1..])
  }

  /** The four two's complement bytes of an integer, without leading zeros unless negative. */
  function IntegerBytes(value: int): (s: seq<byte>)
    requires -0x8000_0000 <= value < 0x8000_0000
    ensures 1 <= |s| <= 4
  {
    var bytes := BytesOf(value % 0x1_0000_0000, 4);
    if value < 0 then bytes
    else if bytes[0] != 0 then bytes
    else if bytes[1] != 0 then bytes[1..]
    else if bytes[2] != 0 then bytes[2..]
    else bytes[3..]
  }

  lemma {:induction false} ForestSnoc(ts: seq<Tree>, i: nat)
    requires i < |ts|
    ensures EncodeForest(ts[..i + 1]) == EncodeForest(ts[..i]) + EncodeTree(ts[i])
  {
    if i == 0 {
      assert ts[..1][1..] == [] && ts[..0] == [];
    } else {
      ForestSnoc(ts[1..], i - 1);
      assert ts[..i + 1][1..] == ts[1..][..i] && ts[..i][1..] == ts[1..][..i - 1];
    }
  }

  class BerTlvWriter {
    var buffer: seq<byte>

    constructor ()
      ensures buffer == []
    {
      buffer := [];
    }

    method WritePrimitive(tag: byte, value: seq<byte>)
      modifies this
      ensures buffer == old(buffer) + EncodePrimitive(tag, value)
    {
      buffer := buffer + [tag];
      buffer := buffer + EncodeLength(|value|);
      buffer := buffer + value;
    }

    method WriteBoolean(tag: byte, value: bool)
      modifies this
      ensures buffer == old(buffer) + EncodePrimitive(tag, [if value then 0xFF else 0x00])
    {
      WritePrimitive(tag, [if value then 0xFF else 0x00]);
    }

    method WriteInteger(tag: byte, value: int)
      requires -0x8000_0000 <= value < 0x8000_0000
      modifies this
      ensures buffer == old(buffer) + EncodePrimitive(tag, IntegerBytes(value))
    {
      var bytes := BytesOf(value % 0x1_0000_0000, 4);
      var start := 0;
      while start < 3 && bytes[start] == 0
        invariant 0 <= start <= 3
        invariant forall i :: 0 <= i < start ==> bytes[i] == 0
      {
        start := start + 1;
      }
      if value < 0 {
        start := 0;
      }
      WritePrimitive(tag, bytes[start..]);
    }

    /** Writes the contents of a constructed element to a temporary writer first, to know
        their length. */
    method WriteTree(t: Tree)
      modifies this
      ensures buffer == old(buffer) + EncodeTree(t)
      decreases t
    {
      hide EncodeLength;
      match t
      case Primitive(tag, value) =>
        WritePrimitive(tag, value);
      case Constructed(tag, children) =>
        var temp := new BerTlvWriter();
        for i := 0 to |children|
          invariant temp.buffer == EncodeForest(children[..i])
          invariant buffer == old(buffer)
        {
          ForestSnoc(children, i);
          temp.WriteTree(children[i]);
        }
        assert children[..|children|] == children;
        var content := temp.buffer;
        buffer := buffer + [tag];
        buffer := buffer + EncodeLength(|content|);
        buffer := buffer + content;
    }
  }

  // --- Walking a tree of known tags -----------------------------------------

  datatype Shape = Leaf(tag: byte) | Node(tag: byte, children: seq<Shape>)

  function ShapeOf(t: Tree): Shape
    decreases t
  {
    match t
    case Primitive(tag, _) => Leaf(tag)
    case Constructed(tag, children) => Node(tag, ShapesOf(children))
  }

  function ShapesOf(ts: seq<Tree>): (ss: seq<Shape>)
    ensures |ss| == |ts|
    decreases ts
  {
    if ts == [] then [] else [ShapeOf(ts[0])] + ShapesOf(ts[1..])
  }

  /** Reads an element of known tags: a leaf as a primitive, a node by entering it. */
  function WalkTree(buf: seq<byte>, pos: nat, shape: Shape): (nat, Result<Tree>)
    decreases shape
  {
    match shape
    case Leaf(tag) =>
      var (after, value) := PrimitiveAt(buf, pos, tag);
      (after, match value case Err(e) => Err(e) case Ok(v) => Ok(Primitive(tag, v)))
    case Node(tag, children) =>
      var (after, length) := EnterAt(buf, pos, tag);
      match length
      case Err(e) => (after, Err(e))
      case Ok(_) =>
        var (end, forest) := WalkForest(buf, after, children);
        (end, match forest case Err(e) => Err(e) case Ok(ts) => Ok(Constructed(tag, ts)))
  }

  function WalkForest(buf: seq<byte>, pos: nat, shapes: seq<Shape>): (nat, Result<seq<Tree>>)
    decreases shapes
  {
    if shapes == [] then (pos, Ok([]))
    else
      var (after, first) := WalkTree(buf, pos, shapes[0]);
      match first
      case Err(e) => (after, Err(e))
      case Ok(t) =>
        var (end, rest) := WalkForest(buf, after, shapes[1..]);
        (end, match rest case Err(e) => Err(e) case Ok(ts) => Ok([t] + ts))
  }

  method ReadTree(reader: BerTlvReader, shape: Shape) returns (r: Result<Tree>)
    requires reader.Valid()
    modifies reader
    ensures reader.Valid()
    ensures (reader.pos, r) == WalkTree(reader.buffer, old(reader.pos), shape)
    decreases shape
  {
    match shape
    case Leaf(tag) =>
      var value := reader.ReadPrimitive(tag);
      if value.Err? {
        return Err(value.error);
      }
      return Ok(Primitive(tag, value.value));
    case Node(tag, children) =>
      var length := reader.EnterConstructed(tag);
      if length.Err? {
        return Err(length.error);
      }
      var forest := ReadForest(reader, children);
      if forest.Err? {
        return Err(forest.error);
      }
      return Ok(Constructed(tag, forest.value));
  }

  method ReadForest(reader: BerTlvReader, shapes: seq<Shape>) returns (r: Result<seq<Tree>>)
    requires reader.Valid()
    modifies reader
    ensures reader.Valid()
    ensures (reader.pos, r) == WalkForest(reader.buffer, old(reader.pos), shapes)
    decreases shapes
  {
    if shapes == [] {
      return Ok([]);
    }
    var first := ReadTree(reader, shapes[0]);
    if first.Err? {
      return Err(first.error);
    }
    var rest := ReadForest(reader, shapes[1..]);
    if rest.Err? {
      return Err(rest.error);
    }
    return Ok([first.value] + rest.value);
  }

  // --- Exactly what is read -------------------------------------------------

  /** A tag, a length field and as many bytes as it says. */
  predicate IsElement(bytes: seq<byte>, tag: byte, value: seq<byte>) {
    && |bytes| > |value| && bytes[0] == tag
    && bytes[|bytes| - |value|..] == value
    && IsField(bytes[1..|bytes| - |value|], |value|)
  }

  /** Exactly when a primitive is read: when the bytes up to the new position are an element of
      the tag with that value. */
  lemma PrimitiveExactly(buf: seq<byte>, pos: nat, tag: byte, after: nat, value: seq<byte>)
    ensures PrimitiveAt(buf, pos, tag) == (after, Ok(value))
      <==> pos < after <= |buf| && IsElement(buf[pos..after], tag, value)
  {
    hide DecodeLength, BigEndian;
    if pos < |buf| && DecodeLength(buf, pos + 1).Ok? {
      var (n, next) := DecodeLength(buf, pos + 1).value;
      DecodedExactly(buf, pos + 1, n, next);
      if next + n <= |buf| {
        ElementParts(buf, pos, next, next + n);
      }
    }
    if pos < after <= |buf| && IsElement(buf[pos..after], tag, value) {
      ElementParts(buf, pos, after - |value|, after);
      DecodedExactly(buf, pos + 1, |value|, after - |value|);
    }
  }

  lemma ElementParts(buf: seq<byte>, pos: nat, next: nat, after: nat)
    requires pos < next <= after <= |buf|
    ensures var bytes := buf[pos..after];
      && |bytes| == after - pos && bytes[0] == buf[pos]
      && bytes[1..next - pos] == buf[pos + 1..next] && bytes[next - pos..] == buf[next..after]
  {
    var bytes := buf[pos..after];
    forall k | 1 <= k < next - pos
      ensures bytes[k] == buf[pos + 1..next][k - 1]
    {
    }
    assert bytes[next - pos..] == buf[next..after];
  }

  /** A wrong tag is consumed and refused, whatever is to be read; so is the end of the bytes,
      without moving. */
  lemma WrongTagIsRefused(buf: seq<byte>, pos: nat, tag: byte)
    requires pos >= |buf| || buf[pos] != tag
    ensures EnterAt(buf, pos, tag) == (if pos < |buf| then pos + 1 else pos, Err(Tlv))
    ensures PrimitiveAt(buf, pos, tag) == (if pos < |buf| then pos + 1 else pos, Err(Tlv))
  {
  }

  /** After its tag, an element is entered if its length can be decoded, even if that says more
      than there is; a value that is cut off is refused after its length. */
  lemma EnteredAnyway(buf: seq<byte>, pos: nat, tag: byte, n: nat, next: nat)
    requires pos + 1 < next <= |buf| && buf[pos] == tag && IsField(buf[pos + 1..next], n)
    ensures EnterAt(buf, pos, tag) == (next, Ok(n))
    ensures next + n > |buf| ==> PrimitiveAt(buf, pos, tag) == (next, Err(Tlv))
  {
    hide DecodeLength, IsField;
    DecodedExactly(buf, pos + 1, n, next);
  }

  /** The length field after a tag, up to a position. */
  predicate FieldAfter(buf: seq<byte>, pos: nat, to: nat, n: nat) {
    pos + 1 < to <= |buf| && IsField(buf[pos + 1..to], n)
  }

  /** A length that cannot be decoded is refused after the tag; and a boolean or integer that is
      refused leaves the cursor where its element does. */
  lemma RefusedCursor(buf: seq<byte>, pos: nat, tag: byte)
    ensures pos < |buf| && buf[pos] == tag && (forall n, next :: !FieldAfter(buf, pos, next, n))
      ==> EnterAt(buf, pos, tag) == (pos + 1, Err(Tlv)) && PrimitiveAt(buf, pos, tag) == (pos + 1, Err(Tlv))
    ensures BooleanAt(buf, pos).0 == PrimitiveAt(buf, pos, 0x01).0 && IntegerAt(buf, pos).0 == PrimitiveAt(buf, pos, 0x02).0
    ensures PrimitiveAt(buf, pos, tag).1.Err? ==> PrimitiveAt(buf, pos, tag).1 == Err(Tlv)
    ensures BooleanAt(buf, pos).1.Err? ==> BooleanAt(buf, pos).1 == Err(Tlv)
    ensures IntegerAt(buf, pos).1.Err? ==> IntegerAt(buf, pos).1 == Err(Tlv)
  {
    ErrorsAreTlv(buf, pos, tag);
    ErrorsAreTlv(buf, pos, 0x01);
    ErrorsAreTlv(buf, pos, 0x02);
    hide DecodeLength, IsField, PrimitiveAt;
    if pos < |buf| && buf[pos] == tag && DecodeLength(buf, pos + 1).Ok? {
      var (n, next) := DecodeLength(buf, pos + 1).value;
      DecodedExactly(buf, pos + 1, n, next);
      assert FieldAfter(buf, pos, next, n);
    }
  }

  lemma ErrorsAreTlv(buf: seq<byte>, pos: nat, tag: byte)
    ensures EnterAt(buf, pos, tag).1.Err? ==>
      EnterAt(buf, pos, tag).1 == Err(Tlv) && PrimitiveAt(buf, pos, tag) == (EnterAt(buf, pos, tag).0, Err(Tlv))
    ensures PrimitiveAt(buf, pos, tag).1.Err? ==> PrimitiveAt(buf, pos, tag).1 == Err(Tlv)
  {
    hide BigEndian;
  }

  /** Exactly when a boolean is read: an element of tag 1 with one byte, true if it is 0xFF. */
  lemma BooleanExactly(buf: seq<byte>, pos: nat, after: nat, b: bool)
    ensures BooleanAt(buf, pos) == (after, Ok(b)) <==>
      exists v: byte :: PrimitiveAt(buf, pos, 0x01) == (after, Ok([v])) && (b <==> v == 0xFF)
  {
    hide PrimitiveAt;
    var value := PrimitiveAt(buf, pos, 0x01).1;
    if value.Ok? && |value.value| == 1 {
      assert value.value == [value.value[0]];
    }
  }

  /** A written boolean is read back. */
  lemma BooleanRoundTrip(pre: seq<byte>, b: bool, suffix: seq<byte>)
    ensures var written := EncodePrimitive(0x01, [if b then 0xFF else 0x00]);
      BooleanAt(pre + written + suffix, |pre|) == (|pre| + |written|, Ok(b))
  {
    hide PrimitiveAt, EncodeLength;
    PrimitiveRoundTrip(pre, 0x01, [if b then 0xFF else 0x00], suffix);
  }

  /** Exactly when an integer is read: an element of tag 2 with one to four bytes, whose number
      is the integer modulo 2^32; a single byte is never negative. */
  lemma IntegerExactly(buf: seq<byte>, pos: nat, after: nat, n: int)
    ensures IntegerAt(buf, pos) == (after, Ok(n)) <==>
      && -0x8000_0000 <= n < 0x8000_0000
      && exists v: seq<byte> :: PrimitiveAt(buf, pos, 0x02) == (after, Ok(v)) && 1 <= |v| <= 4
           && BigEndian(v) == (if n < 0 then n + 0x1_0000_0000 else n)
  {
    hide PrimitiveAt, BigEndian;
    var value := PrimitiveAt(buf, pos, 0x02).1;
    if value.Ok? && 1 <= |value.value| <= 4 {
      BigEndianBound(value.value);
      Pow256Values();
      assert Pow256(|value.value|) <= 0x1_0000_0000;
    }
  }

  // --- Round trips ----------------------------------------------------------

  /** Entering a written element: the cursor stands at its contents, even if their length is
      too large for the length field. */
  lemma EnterWritten(pre: seq<byte>, tag: byte, content: seq<byte>, suffix: seq<byte>)
    ensures var buf := pre + EncodePrimitive(tag, content) + suffix;
      EnterAt(buf, |pre|, tag) == (|pre| + 1 + |EncodeLength(|content|)|, Ok(|content| % U32_LIMIT))
  {
    hide EncodeLength, DecodeLength;
    var buf := pre + EncodePrimitive(tag, content) + suffix;
    assert buf[|pre|] == tag;
    LengthRoundTrip(pre + [tag], |content|, content + suffix);
    assert buf == pre + [tag] + EncodeLength(|content|) + (content + suffix);
  }

  /** A written primitive is read back, ending exactly at its end, if and only if its value is
      shorter than 2^32 bytes. */
  lemma PrimitiveRoundTrip(pre: seq<byte>, tag: byte, value: seq<byte>, suffix: seq<byte>)
    ensures var written := EncodePrimitive(tag, value);
      PrimitiveAt(pre + written + suffix, |pre|, tag) == (|pre| + |written|, Ok(value))
      <==> |value| < U32_LIMIT
  {
    hide EncodeLength, DecodeLength;
    var written := EncodePrimitive(tag, value);
    var buf := pre + written + suffix;
    if |value| < U32_LIMIT {
      EnterWritten(pre, tag, value, suffix);
      var at := |pre| + 1 + |EncodeLength(|value|)|;
      assert buf[at..at + |value|] == value;
    } else {
      assert buf[|pre|] == tag;
      assert buf == pre + [tag] + EncodeLength(|value|) + (value + suffix);
      LengthRoundTrip(pre + [tag], |value|, value + suffix);
    }
  }

  /** Every primitive value of the tree is shorter than 2^32 bytes. */
  ghost predicate Fits(t: Tree)
    decreases t
  {
    match t
    case Primitive(_, value) => |value| < U32_LIMIT
    case Constructed(_, children) => AllFit(children)
  }

  ghost predicate AllFit(ts: seq<Tree>)
    decreases ts
  {
    ts == [] || (Fits(ts[0]) && AllFit(ts[1..]))
  }

  /** A tree is read back with the same tags and values, the cursor ending exactly at its end,
      whatever follows, if and only if every primitive value is shorter than 2^32 bytes; its
      constructed elements may be larger, as entering one does not use its length. */
  lemma TreeRoundTrip(pre: seq<byte>, t: Tree, suffix: seq<byte>)
    ensures WalkTree(pre + EncodeTree(t) + suffix, |pre|, ShapeOf(t)) == (|pre| + |EncodeTree(t)|, Ok(t))
      <==> Fits(t)
  {
    hide *;
    if Fits(t) {
      WrittenTreeIsRead(pre, t, suffix);
    } else {
      ReadTreeFits(pre + EncodeTree(t) + suffix, |pre|, ShapeOf(t));
    }
  }

  /** Whatever is read has primitive values shorter than 2^32 bytes. */
  lemma {:induction false} ReadTreeFits(buf: seq<byte>, pos: nat, shape: Shape)
    ensures WalkTree(buf, pos, shape).1.Ok? ==> Fits(WalkTree(buf, pos, shape).1.value)
    decreases shape
  {
    match shape
    case Leaf(tag) => PrimitiveIsShort(buf, pos, tag);
    case Node(tag, children) =>
      ReadForestFits(buf, EnterAt(buf, pos, tag).0, children);
  }

  lemma {:induction false} ReadForestFits(buf: seq<byte>, pos: nat, shapes: seq<Shape>)
    ensures WalkForest(buf, pos, shapes).1.Ok? ==> AllFit(WalkForest(buf, pos, shapes).1.value)
    decreases shapes
  {
    if shapes != [] {
      ReadTreeFits(buf, pos, shapes[0]);
      ReadForestFits(buf, WalkTree(buf, pos, shapes[0]).0, shapes[1..]);
    }
  }

  lemma PrimitiveIsShort(buf: seq<byte>, pos: nat, tag: byte)
    ensures PrimitiveAt(buf, pos, tag).1.Ok? ==> |PrimitiveAt(buf, pos, tag).1.value| < U32_LIMIT
  {
    hide DecodeLength;
    if PrimitiveAt(buf, pos, tag).1.Ok? {
      DecodedFieldIsBounded(buf, pos + 1);
    }
  }

  lemma {:induction false} WrittenTreeIsRead(pre: seq<byte>, t: Tree, suffix: seq<byte>)
    requires Fits(t)
    ensures WalkTree(pre + EncodeTree(t) + suffix, |pre|, ShapeOf(t)) == (|pre| + |EncodeTree(t)|, Ok(t))
    decreases t
  {
    hide EncodeLength, EncodePrimitive, PrimitiveAt, EnterAt, WalkForest, EncodeForest;
    match t
    case Primitive(tag, value) =>
      PrimitiveRoundTrip(pre, tag, value, suffix);
    case Constructed(tag, children) =>
      var content := EncodeForest(children);
      EnterWritten(pre, tag, content, suffix);
      EncodedSplits(tag, content);
      var head := pre + ([tag] + EncodeLength(|content|));
      assert pre + EncodePrimitive(tag, content) + suffix == head + content + suffix;
      ForestRoundTrip(head, children, suffix);
  }

  lemma EncodedSplits(tag: byte, content: seq<byte>)
    ensures EncodePrimitive(tag, content) == [tag] + EncodeLength(|content|) + content
  {
  }

  /** Walking the first element and then the others is walking them all. */
  lemma ForestStep(buf: seq<byte>, pos: nat, shapes: seq<Shape>, mid: nat, t: Tree, end: nat, ts: seq<Tree>)
    requires shapes != []
    requires WalkTree(buf, pos, shapes[0]) == (mid, Ok(t))
    requires WalkForest(buf, mid, shapes[1..]) == (end, Ok(ts))
    ensures WalkForest(buf, pos, shapes) == (end, Ok([t] + ts))
  {
    hide WalkTree;
  }

  lemma ForestParts(ts: seq<Tree>)
    requires ts != []
    ensures EncodeForest(ts) == EncodeTree(ts[0]) + EncodeForest(ts[1..])
    ensures ShapesOf(ts)[0] == ShapeOf(ts[0]) && ShapesOf(ts)[1..] == ShapesOf(ts[1..])
    ensures AllFit(ts) ==> Fits(ts[0]) && AllFit(ts[1..])
    ensures ts == [ts[0]] + ts[1..]
  {
    hide EncodeTree, ShapeOf;
    assert ShapesOf(ts)[1..] == ShapesOf(ts[1..]);
  }

  /** Reading back the first element and then the others is reading back them all. */
  lemma ForestCons(pre: seq<byte>, ts: seq<Tree>, suffix: seq<byte>)
    requires ts != []
    requires var first, rest := EncodeTree(ts[0]), EncodeForest(ts[1..]);
      && WalkTree(pre + first + (rest + suffix), |pre|, ShapeOf(ts[0])) == (|pre| + |first|, Ok(ts[0]))
      && WalkForest((pre + first) + rest + suffix, |pre + first|, ShapesOf(ts[1..]))
         == (|pre + first| + |rest|, Ok(ts[1..]))
    ensures WalkForest(pre + EncodeForest(ts) + suffix, |pre|, ShapesOf(ts)) == (|pre| + |EncodeForest(ts)|, Ok(ts))
  {
    hide WalkTree, WalkForest, EncodeTree, EncodeForest, ShapeOf, ShapesOf;
    ForestParts(ts);
    var first, rest := EncodeTree(ts[0]), EncodeForest(ts[1..]);
    Regroup(pre, first, rest, suffix);
    ForestStep(pre + EncodeForest(ts) + suffix, |pre|, ShapesOf(ts), |pre| + |first|, ts[0],
               |pre| + |first| + |rest|, ts[1..]);
  }

  lemma NoForest(pre: seq<byte>, suffix: seq<byte>)
    ensures WalkForest(pre + EncodeForest([]) + suffix, |pre|, ShapesOf([])) == (|pre| + |EncodeForest([])|, Ok([]))
  {
  }

  lemma {:induction false} ForestRoundTrip(pre: seq<byte>, ts: seq<Tree>, suffix: seq<byte>)
    requires AllFit(ts)
    ensures WalkForest(pre + EncodeForest(ts) + suffix, |pre|, ShapesOf(ts)) == (|pre| + |EncodeForest(ts)|, Ok(ts))
    decreases ts
  {
    hide *;
    if ts == [] {
      NoForest(pre, suffix);
    } else {
      ForestParts(ts);
      WrittenTreeIsRead(pre, ts[0], EncodeForest(ts[1..]) + suffix);
      ForestRoundTrip(pre + EncodeTree(ts[0]), ts[1..], suffix);
      ForestCons(pre, ts, suffix);
    }
  }

  lemma {:induction false} LeadingZero(s: seq<byte>)
    requires s != [] && s[0] == 0
    ensures BigEndian(s) == BigEndian(s[1..])
  {
    BigEndianCons(0, s[1..]);
    assert s == [0] + s[1..];
  }

  /** The bytes written for an integer denote it, and are as few as its sign allows. */
  lemma IntegerBytesValue(value: int)
    requires -0x8000_0000 <= value < 0x8000_0000
    ensures ToI32(BigEndian(IntegerBytes(value))) == value
    ensures |IntegerBytes(value)| > 1 ==> IntegerBytes(value)[0] != 0
  {
    hide BytesOf, BigEndian;
    var low := value % 0x1_0000_0000;
    var bytes := BytesOf(low, 4);
    BytesOfValue(low, 4);
    Pow256Values();
    assert BigEndian(bytes) == low;
    if value >= 0 && bytes[0] == 0 {
      LeadingZero(bytes);
      if bytes[1] == 0 {
        LeadingZero(bytes[1..]);
        assert bytes[1..][1..] == bytes[2..];
        if bytes[2] == 0 {
          LeadingZero(bytes[2..]);
          assert bytes[2..][1..] == bytes[3..];
        }
      }
    }
    if value < 0 {
      NegativeLead(low, bytes);
    }
  }

  lemma NegativeLead(low: nat, bytes: seq<byte>)
    requires |bytes| == 4 && BigEndian(bytes) == low && low >= 0x8000_0000
    ensures bytes[0] != 0
  {
    if bytes[0] == 0 {
      LeadingZero(bytes);
      BigEndianBound(bytes[1..]);
      Pow256Values();
    }
  }

  /** Writing an integer and reading it back is the identity on all 32-bit integers. */
  lemma IntegerRoundTrip(pre: seq<byte>, value: int, suffix: seq<byte>)
    requires -0x8000_0000 <= value < 0x8000_0000
    ensures var written := EncodePrimitive(TLV_INT, IntegerBytes(value));
      IntegerAt(pre + written + suffix, |pre|) == (|pre| + |written|, Ok(value))
  {
    hide EncodePrimitive, PrimitiveAt, BigEndian, BytesOf;
    IntegerBytesValue(value);
    PrimitiveRoundTrip(pre, TLV_INT, IntegerBytes(value), suffix);
  }
}
