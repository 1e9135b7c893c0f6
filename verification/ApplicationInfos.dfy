/** The application information in the reply to SELECT: a template of optional fields in a
    fixed order, or a bare public key from a card that is not initialised. */
module ApplicationInfos {
  import opened Bytes
  import opened BerLength
  import opened TlvCodec
  import opened OptionalFields

  const TLV_APPLICATION_INFO_TEMPLATE: byte := 0xA4
  const TLV_PUB_KEY: byte := 0x80
  const TLV_CERT: byte := 0x8A
  const TLV_STATUS: byte := 0x8C
  const TLV_CAPABILITIES: byte := 0x8D
  const TLV_KEY_UID: byte := 0x8E
  const TLV_UID: byte := 0x8F
  const APP_STATUS_INITIALIZED: byte := 0x10
  const CAPABILITY_SECURE_CHANNEL: byte := 0x01
  const CAPABILITY_CREDENTIALS_MANAGEMENT: byte := 0x04
  const CAPABILITY_ALL: byte := 0x1F

  datatype ApplicationInfo = ApplicationInfo(
    initialized: bool,
    instanceUid: Option<seq<byte>>,
    secureChannelPubKey: Option<seq<byte>>,
    appVersion: nat,
    freePairingSlots: byte,
    keyUid: seq<byte>,
    capabilities: byte,
    certData: Option<seq<byte>>,
    appStatus: byte)

  predicate IsInitialized(status: int) {
    status / 0x10 % 2 == 1
  }

  function Uninitialized(pubKey: seq<byte>): ApplicationInfo {
    ApplicationInfo(
      false, None, Some(pubKey), 0, 0, [],
      if pubKey == [] then CAPABILITY_CREDENTIALS_MANAGEMENT
      else CAPABILITY_CREDENTIALS_MANAGEMENT + CAPABILITY_SECURE_CHANNEL,
      None, 0)
  }

  /** The first byte of a field that may be absent but not empty. */
  function FirstByte(value: Option<seq<byte>>, default: byte): Result<byte> {
    match value
    case None => Ok(default)
    case Some(v) => if v == [] then Err(Tlv) else Ok(v[0])
  }

  /** An optional INTEGER, cut to a byte. */
  function SlotsAt(data: seq<byte>, pos: nat): (nat, Result<byte>) {
    if !NextTagIs(data, pos, TLV_INT) then (pos, Ok(0))
    else
      var (after, n) := IntegerAt(data, pos);
      (after, match n case Err(e) => Err(e) case Ok(i) => Ok(i % 0x100))
  }

  function Decode(data: seq<byte>): Result<ApplicationInfo> {
    if NextTagIs(data, 0, TLV_PUB_KEY) then
      match PrimitiveAt(data, 0, TLV_PUB_KEY).1
      case Err(e) => Err(e)
      case Ok(pubKey) => Ok(Uninitialized(pubKey))
    else
      var (p0, entered) := EnterAt(data, 0, TLV_APPLICATION_INFO_TEMPLATE);
      if entered.Err? then Err(entered.error)
      else
        var (p1, uid) := OptionalAt(data, p0, TLV_UID);
        if uid.Err? then Err(uid.error)
        else
          var (p2, pubKey) := OptionalAt(data, p1, TLV_PUB_KEY);
          if pubKey.Err? then Err(pubKey.error)
          else
            var (p3, version) := IntegerAt(data, p2);
            if version.Err? then Err(version.error) else DecodeRest(data, p3, uid.value, pubKey.value, version.value)
  }

  /** The fields from the application status on. */
  function DecodeRest(data: seq<byte>, pos: nat, uid: Option<seq<byte>>, pubKey: Option<seq<byte>>, version: int)
    : Result<ApplicationInfo>
  {
    var (p4, statusField) := OptionalAt(data, pos, TLV_STATUS);
    if statusField.Err? then Err(statusField.error)
    else
      var status := FirstByte(statusField.value, APP_STATUS_INITIALIZED);
      if status.Err? then Err(status.error)
      else
        var (p5, slots) := SlotsAt(data, p4);
        if slots.Err? then Err(slots.error)
        else
          var (p6, keyUid) := PrimitiveAt(data, p5, TLV_KEY_UID);
          if keyUid.Err? then Err(keyUid.error)
          else
            DecodeTail(data, p6, Fixed(uid, pubKey, version % 0x1_0000, status.value, slots.value, keyUid.value))
  }

  /** The fields before the two optional last ones. */
  datatype Fixed = Fixed(uid: Option<seq<byte>>, pubKey: Option<seq<byte>>, version: nat, status: byte, slots: byte,
                         keyUid: seq<byte>)

  function WithTail(f: Fixed, caps: byte, cert: Option<seq<byte>>): ApplicationInfo {
    ApplicationInfo(IsInitialized(f.status), f.uid, f.pubKey, f.version, f.slots, f.keyUid, caps, cert, f.status)
  }

  /** The capabilities and the certificate. */
  function DecodeTail(data: seq<byte>, pos: nat, f: Fixed): Result<ApplicationInfo> {
    var (p7, capsField) := OptionalAt(data, pos, TLV_CAPABILITIES);
    if capsField.Err? then Err(capsField.error)
    else
      var caps := FirstByte(capsField.value, CAPABILITY_ALL);
      if caps.Err? then Err(caps.error)
      else
        var (p8, cert) := OptionalAt(data, p7, TLV_CERT);
        if cert.Err? then Err(cert.error) else Ok(WithTail(f, caps.value, cert.value))
  }

  method FromTlv(data: seq<byte>) returns (r: Result<ApplicationInfo>)
    ensures r == Decode(data)
  {
    var reader := new BerTlvReader(data);
    if NextTagIs(reader.buffer, reader.pos, TLV_PUB_KEY) {
      var pubKey := reader.ReadPrimitive(TLV_PUB_KEY);
      if pubKey.Err? {
        return Err(pubKey.error);
      }
      var caps := CAPABILITY_CREDENTIALS_MANAGEMENT;
      if pubKey.value != [] {
        caps := caps + CAPABILITY_SECURE_CHANNEL;
      }
      return Ok(ApplicationInfo(false, None, Some(pubKey.value), 0, 0, [], caps, None, 0));
    }

    var entered := reader.EnterConstructed(TLV_APPLICATION_INFO_TEMPLATE);
    if entered.Err? {
      return Err(entered.error);
    }
    var uid := ReadOptional(reader, TLV_UID);
    if uid.Err? {
      return Err(uid.error);
    }
    var pubKey := ReadOptional(reader, TLV_PUB_KEY);
    if pubKey.Err? {
      return Err(pubKey.error);
    }
    var version := reader.ReadInteger();
    if version.Err? {
      return Err(version.error);
    }
    r := ReadRest(reader, uid.value, pubKey.value, version.value);
  }

  method ReadRest(reader: BerTlvReader, uid: Option<seq<byte>>, pubKey: Option<seq<byte>>, version: int)
    returns (r: Result<ApplicationInfo>)
    requires reader.Valid()
    modifies reader
    ensures reader.Valid()
    ensures r == DecodeRest(reader.buffer, old(reader.pos), uid, pubKey, version)
  {
    hide OptionalAt, PrimitiveAt, IntegerAt, IsInitialized;
    var appStatus := APP_STATUS_INITIALIZED;
    var freePairingSlots: byte := 0;
    var capabilities := CAPABILITY_ALL;

    var statusField := ReadOptional(reader, TLV_STATUS);
    if statusField.Err? {
      return Err(statusField.error);
    }
    if statusField.value.Some? {
      if statusField.value.value == [] {
        return Err(Tlv);
      }
      appStatus := statusField.value.value[0];
    }
    if NextTagIs(reader.buffer, reader.pos, TLV_INT) {
      var slots := reader.ReadInteger();
      if slots.Err? {
        return Err(slots.error);
      }
      freePairingSlots := slots.value % 0x100;
    }
    var keyUid := reader.ReadPrimitive(TLV_KEY_UID);
    if keyUid.Err? {
      return Err(keyUid.error);
    }
    var capsField := ReadOptional(reader, TLV_CAPABILITIES);
    if capsField.Err? {
      return Err(capsField.error);
    }
    if capsField.value.Some? {
      if capsField.value.value == [] {
        return Err(Tlv);
      }
      capabilities := capsField.value.value[0];
    }
    var cert := ReadOptional(reader, TLV_CERT);
    if cert.Err? {
      return Err(cert.error);
    }
    return Ok(ApplicationInfo(IsInitialized(appStatus), uid, pubKey, version % 0x1_0000, freePairingSlots,
                              keyUid.value, capabilities, cert.value, appStatus));
  }

  // --- What a card sends ----------------------------------------------------

  /** The template of an initialised card, with any combination of optional fields. */
  datatype Template = Template(
    uid: Option<seq<byte>>,
    pubKey: Option<seq<byte>>,
    version: int,
    status: Option<seq<byte>>,
    slots: Option<int>,
    keyUid: seq<byte>,
    caps: Option<seq<byte>>,
    cert: Option<seq<byte>>)

  predicate IsI32(n: int) { -0x8000_0000 <= n < 0x8000_0000 }

  ghost predicate WellSized(t: Template) {
    && Short(t.uid) && Short(t.pubKey) && Short(t.status) && Short(t.caps) && Short(t.cert)
    && |t.keyUid| < U32_LIMIT && IsI32(t.version) && (t.slots.Some? ==> IsI32(t.slots.value))
  }

  function SlotsBytes(t: Template): Option<seq<byte>> {
    if t.slots.Some? && IsI32(t.slots.value) then Some(IntegerBytes(t.slots.value)) else None
  }

  function VersionBytes(t: Template): seq<byte> {
    if IsI32(t.version) then IntegerBytes(t.version) else []
  }

  /** The fields from the application status on. */
  function EncodeRest(t: Template): seq<byte> {
    EncodeOptional(TLV_STATUS, t.status)
    + EncodeOptional(TLV_INT, SlotsBytes(t))
    + EncodePrimitive(TLV_KEY_UID, t.keyUid)
    + EncodeOptional(TLV_CAPABILITIES, t.caps)
    + EncodeOptional(TLV_CERT, t.cert)
  }

  function EncodeFields(t: Template): seq<byte> {
    EncodeOptional(TLV_UID, t.uid)
    + EncodeOptional(TLV_PUB_KEY, t.pubKey)
    + EncodePrimitive(TLV_INT, VersionBytes(t))
    + EncodeRest(t)
  }

  function Encode(t: Template): seq<byte> {
    EncodePrimitive(TLV_APPLICATION_INFO_TEMPLATE, EncodeFields(t))
  }

  /** The fields as the host should see them; a status or capability field must not be empty. */
  function Expected(t: Template): Result<ApplicationInfo> {
    var status := FirstByte(t.status, APP_STATUS_INITIALIZED);
    var caps := FirstByte(t.caps, CAPABILITY_ALL);
    if status.Err? || caps.Err? then Err(Tlv)
    else Ok(ApplicationInfo(
      IsInitialized(status.value), t.uid, t.pubKey, t.version % 0x1_0000,
      if t.slots.Some? then t.slots.value % 0x100 else 0,
      t.keyUid, caps.value, t.cert, status.value))
  }

  /** The pairing slots are read as written, and an absent field is not mistaken for another. */
  lemma SlotsWritten(pre: seq<byte>, t: Template, rest: seq<byte>)
    requires t.slots.Some? ==> IsI32(t.slots.value)
    requires NotNext(TLV_INT, rest)
    ensures var field := EncodeOptional(TLV_INT, SlotsBytes(t));
      SlotsAt(pre + field + rest, |pre|)
      == (|pre| + |field|, Ok(if t.slots.Some? then t.slots.value % 0x100 else 0))
  {
    hide IntegerBytes, IntegerAt, EncodeLength;
    if t.slots.None? {
      assert pre + [] + rest == pre + rest;
    } else {
      IntegerRoundTrip(pre, t.slots.value, rest);
      assert (pre + EncodePrimitive(TLV_INT, IntegerBytes(t.slots.value)) + rest)[|pre|] == TLV_INT;
    }
  }

  // --- Trailing bytes -------------------------------------------------------

  /** Reading is not confined to the template. What follows at a position is not taken for one
      of its last fields, or for a capability field that says what its absence would. */
  predicate Undisturbed(t: Template, data: seq<byte>, pos: nat) {
    t.cert.Some? ||
      if t.caps.None? && NextTagIs(data, pos, TLV_CAPABILITIES) then
        var (after, field) := OptionalAt(data, pos, TLV_CAPABILITIES);
        field.Ok? && FirstByte(field.value, CAPABILITY_ALL) == Ok(CAPABILITY_ALL) && !NextTagIs(data, after, TLV_CERT)
      else !NextTagIs(data, pos, TLV_CERT)
  }

  function FixedOf(t: Template): Fixed
    requires FirstByte(t.status, APP_STATUS_INITIALIZED).Ok?
  {
    Fixed(t.uid, t.pubKey, t.version % 0x1_0000, FirstByte(t.status, APP_STATUS_INITIALIZED).value,
          if t.slots.Some? then t.slots.value % 0x100 else 0, t.keyUid)
  }

  function EncodeTail(t: Template): seq<byte> {
    EncodeOptional(TLV_CAPABILITIES, t.caps) + EncodeOptional(TLV_CERT, t.cert)
  }

  /** The last two fields are recovered exactly if what follows does not disturb them. */
  lemma TailWritten(pre: seq<byte>, t: Template, suffix: seq<byte>)
    requires Short(t.caps) && Short(t.cert) && FirstByte(t.status, APP_STATUS_INITIALIZED).Ok?
    ensures
      var data := pre + EncodeTail(t) + suffix;
      var caps := FirstByte(t.caps, CAPABILITY_ALL);
      if caps.Err? then DecodeTail(data, |pre|, FixedOf(t)) == Err(Tlv)
      else
        DecodeTail(data, |pre|, FixedOf(t)) == Ok(WithTail(FixedOf(t), caps.value, t.cert))
        <==> Undisturbed(t, data, |pre + EncodeTail(t)|)
  {
    hide PrimitiveAt, EncodeLength, IsInitialized;
    var f7, f8 := EncodeOptional(TLV_CAPABILITIES, t.caps), EncodeOptional(TLV_CERT, t.cert);
    var data := pre + EncodeTail(t) + suffix;
    assert data == pre + f7 + (f8 + suffix) && data == (pre + f7) + f8 + suffix;
    assert f8 == [] ==> f8 + suffix == suffix && (pre + f7) + suffix == data;
    if t.caps.Some? || t.cert.Some? {
      NotNextCert(t, suffix);
      OptionalWritten(pre, TLV_CAPABILITIES, t.caps, f8 + suffix);
    }
    if t.cert.Some? {
      OptionalWritten(pre + f7, TLV_CERT, t.cert, suffix);
    }
  }

  lemma NotNextCert(t: Template, suffix: seq<byte>)
    requires t.caps.Some? || t.cert.Some?
    ensures t.caps.None? ==> NotNext(TLV_CAPABILITIES, EncodeOptional(TLV_CERT, t.cert) + suffix)
  {
    hide EncodeLength;
  }

  /** The fields from the application status on. */
  lemma RestWritten(pre: seq<byte>, t: Template, suffix: seq<byte>)
    requires WellSized(t)
    ensures
      var data := pre + EncodeRest(t) + suffix;
      var r := DecodeRest(data, |pre|, t.uid, t.pubKey, t.version);
      && (Expected(t).Err? ==> r == Expected(t))
      && (Expected(t).Ok? ==> (r == Expected(t) <==> Undisturbed(t, data, |pre + EncodeRest(t)|)))
  {
    hide *;
    RestParts(t, suffix);
    ExpectedParts(t);
    SizedFields(t);
    var f4 := EncodeOptional(TLV_STATUS, t.status);
    var f5 := EncodeOptional(TLV_INT, SlotsBytes(t));
    var f6 := EncodePrimitive(TLV_KEY_UID, t.keyUid);
    var tail := EncodeTail(t) + suffix;
    var data := pre + EncodeRest(t) + suffix;
    assert data == pre + f4 + f5 + f6 + tail;
    assert pre + EncodeRest(t) == pre + f4 + f5 + f6 + EncodeTail(t);
    assert OptionalAt(data, |pre|, TLV_STATUS) == (|pre + f4|, Ok(t.status)) by {
      assert data == pre + f4 + (f5 + (f6 + tail));
      OptionalWritten(pre, TLV_STATUS, t.status, f5 + (f6 + tail));
    }
    assert SlotsAt(data, |pre + f4|)
        == (|pre + f4 + f5|, Ok(if t.slots.Some? then t.slots.value % 0x100 else 0)) by {
      assert data == (pre + f4) + f5 + (f6 + tail);
      SlotsWritten(pre + f4, t, f6 + tail);
    }
    assert PrimitiveAt(data, |pre + f4 + f5|, TLV_KEY_UID) == (|pre + f4 + f5 + f6|, Ok(t.keyUid)) by {
      PrimitiveRoundTrip(pre + f4 + f5, TLV_KEY_UID, t.keyUid, tail);
    }
    RestSteps(data, |pre|, t, |pre + f4|, |pre + f4 + f5|, |pre + f4 + f5 + f6|);
    if FirstByte(t.status, APP_STATUS_INITIALIZED).Ok? {
      assert data == (pre + f4 + f5 + f6) + EncodeTail(t) + suffix;
      TailWritten(pre + f4 + f5 + f6, t, suffix);
    }
  }

  lemma SizedFields(t: Template)
    requires WellSized(t)
    ensures Short(t.status) && Short(t.caps) && Short(t.cert) && |t.keyUid| < U32_LIMIT
    ensures t.slots.Some? ==> IsI32(t.slots.value)
  {
  }

  lemma ExpectedParts(t: Template)
    ensures
      var status, caps := FirstByte(t.status, APP_STATUS_INITIALIZED), FirstByte(t.caps, CAPABILITY_ALL);
      Expected(t) == if status.Err? || caps.Err? then Err(Tlv) else Ok(WithTail(FixedOf(t), caps.value, t.cert))
  {
  }

  /** The steps before the last two fields. */
  lemma RestSteps(data: seq<byte>, pos: nat, t: Template, p4: nat, p5: nat, p6: nat)
    requires OptionalAt(data, pos, TLV_STATUS) == (p4, Ok(t.status))
    requires SlotsAt(data, p4) == (p5, Ok(if t.slots.Some? then t.slots.value % 0x100 else 0))
    requires PrimitiveAt(data, p5, TLV_KEY_UID) == (p6, Ok(t.keyUid))
    ensures DecodeRest(data, pos, t.uid, t.pubKey, t.version)
      == if FirstByte(t.status, APP_STATUS_INITIALIZED).Err? then Err(Tlv) else DecodeTail(data, p6, FixedOf(t))
  {
    hide OptionalAt, SlotsAt, PrimitiveAt, DecodeTail;
  }

  lemma RestParts(t: Template, suffix: seq<byte>)
    ensures
      var f6 := EncodePrimitive(TLV_KEY_UID, t.keyUid);
      var tail := EncodeTail(t) + suffix;
      && EncodeRest(t) == EncodeOptional(TLV_STATUS, t.status) + EncodeOptional(TLV_INT, SlotsBytes(t)) + f6 + EncodeTail(t)
      && NotNext(TLV_INT, f6 + tail)
      && NotNext(TLV_STATUS, EncodeOptional(TLV_INT, SlotsBytes(t)) + (f6 + tail))
  {
    hide EncodeOptional, EncodePrimitive;
    var tail := EncodeTail(t) + suffix;
    NotNextPrimitive(TLV_STATUS, TLV_KEY_UID, t.keyUid, tail);
    NotNextPrimitive(TLV_INT, TLV_KEY_UID, t.keyUid, tail);
    NotNextField(TLV_STATUS, TLV_INT, SlotsBytes(t), EncodePrimitive(TLV_KEY_UID, t.keyUid) + tail);
  }

  /** Every combination of optional fields is told apart and every field recovered, the two
      INTEGER fields by their place, if and only if what follows the template does not disturb
      it, as it never does unless it begins with one of two tags. Exactly an empty status or
      capability field is refused. */
  lemma InfoRecovered(t: Template, suffix: seq<byte>)
    requires WellSized(t)
    ensures Expected(t).Err? <==> t.status == Some([]) || t.caps == Some([])
    ensures Expected(t).Err? ==> Decode(Encode(t) + suffix) == Expected(t)
    ensures Expected(t).Ok? ==>
      (Decode(Encode(t) + suffix) == Expected(t) <==> Undisturbed(t, Encode(t) + suffix, |Encode(t)|))
    ensures suffix == [] || (suffix[0] != TLV_CAPABILITIES && suffix[0] != TLV_CERT)
      ==> Undisturbed(t, Encode(t) + suffix, |Encode(t)|)
  {
    InfoSteps(t, suffix);
  }

  lemma InfoSteps(t: Template, suffix: seq<byte>)
    requires WellSized(t)
    ensures
      var r := Decode(Encode(t) + suffix);
      && (Expected(t).Err? ==> r == Expected(t))
      && (Expected(t).Ok? ==> (r == Expected(t) <==> Undisturbed(t, Encode(t) + suffix, |Encode(t)|)))
  {
    hide EncodeOptional, OptionalAt, PrimitiveAt, EnterAt, IntegerAt, IntegerBytes, Expected, EncodeRest, DecodeRest;
    hide Short, EncodeLength, Undisturbed;
    var f1 := EncodeOptional(TLV_UID, t.uid);
    var f2 := EncodeOptional(TLV_PUB_KEY, t.pubKey);
    var f3 := EncodePrimitive(TLV_INT, VersionBytes(t));
    var rest := EncodeRest(t) + suffix;
    var content := EncodeFields(t);
    var data := Encode(t) + suffix;
    var head := [TLV_APPLICATION_INFO_TEMPLATE] + EncodeLength(|content|);
    assert data == head + f1 + f2 + f3 + rest && Encode(t) == head + f1 + f2 + f3 + EncodeRest(t);
    assert data[0] == TLV_APPLICATION_INFO_TEMPLATE;
    assert EnterAt(data, 0, TLV_APPLICATION_INFO_TEMPLATE).0 == |head|
        && EnterAt(data, 0, TLV_APPLICATION_INFO_TEMPLATE).1.Ok? by {
      EnterWritten([], TLV_APPLICATION_INFO_TEMPLATE, content, suffix);
      assert [] + Encode(t) + suffix == data;
    }
    assert OptionalAt(data, |head|, TLV_UID) == (|head + f1|, Ok(t.uid)) by {
      NotNextPrimitive(TLV_UID, TLV_INT, VersionBytes(t), rest);
      NotNextField(TLV_UID, TLV_PUB_KEY, t.pubKey, f3 + rest);
      assert data == head + f1 + (f2 + (f3 + rest));
      OptionalWritten(head, TLV_UID, t.uid, f2 + (f3 + rest));
    }
    assert OptionalAt(data, |head + f1|, TLV_PUB_KEY) == (|head + f1 + f2|, Ok(t.pubKey)) by {
      NotNextPrimitive(TLV_PUB_KEY, TLV_INT, VersionBytes(t), rest);
      assert data == (head + f1) + f2 + (f3 + rest);
      OptionalWritten(head + f1, TLV_PUB_KEY, t.pubKey, f3 + rest);
    }
    assert IntegerAt(data, |head + f1 + f2|) == (|head + f1 + f2 + f3|, Ok(t.version)) by {
      IntegerRoundTrip(head + f1 + f2, t.version, rest);
    }
    assert data == (head + f1 + f2 + f3) + EncodeRest(t) + suffix;
    RestWritten(head + f1 + f2 + f3, t, suffix);
  }

  /** A card that is not initialised sends only its key; whatever follows it is ignored. It can
      manage credentials, and open a secure channel exactly if the key is not empty. */
  lemma UninitializedRecovered(pubKey: seq<byte>, suffix: seq<byte>)
    requires |pubKey| < U32_LIMIT
    ensures Decode(EncodePrimitive(TLV_PUB_KEY, pubKey) + suffix)
      == Ok(ApplicationInfo(false, None, Some(pubKey), 0, 0, [], if pubKey == [] then 0x04 else 0x05, None, 0))
  {
    hide PrimitiveAt, EncodeLength;
    var data := EncodePrimitive(TLV_PUB_KEY, pubKey) + suffix;
    PrimitiveRoundTrip([], TLV_PUB_KEY, pubKey, suffix);
    assert [] + EncodePrimitive(TLV_PUB_KEY, pubKey) + suffix == data;
  }

  // --- What the fields mean -------------------------------------------------

  /** What a template says: a card is initialised exactly if bit 0x10 of its status is set, or
      without a status; without capabilities it has all of 0x1F; the first byte of each field
      counts; the version is cut to 16 bits and the free pairing slots to 8. */
  lemma FieldsMean(t: Template)
    requires t.status != Some([]) && t.caps != Some([])
    ensures Expected(t).Ok?
    ensures
      var info := Expected(t).value;
      && (info.initialized <==> t.status.None? || t.status.value[0] % 0x20 >= 0x10)
      && info.appStatus == (if t.status.None? then 0x10 else t.status.value[0])
      && info.capabilities == (if t.caps.None? then 0x1F else t.caps.value[0])
      && info.freePairingSlots == (if t.slots.None? then 0 else t.slots.value % 256)
      && info.appVersion == t.version % 65536
      && info.instanceUid == t.uid && info.secureChannelPubKey == t.pubKey
      && info.keyUid == t.keyUid && info.certData == t.cert
  {
  }

  // --- Exactly what is accepted ---------------------------------------------

  /** The positions at which the fields of a reply end. */
  datatype Ends = Ends(enter: nat, uid: nat, key: nat, version: nat, status: nat, slots: nat, keyUid: nat, caps: nat, cert: nat)

  /** Bytes that spell a template from the front: its tag and any length field, then its fields
      in order, of which those but the version and the key UID may be absent, as they are when
      the next byte is not their tag. What follows does not matter. */
  ghost predicate Spells(data: seq<byte>, t: Template, e: Ends) {
    && IsEntered(data, 0, 0xA4, e.enter)
    && IsOptional(data, e.enter, 0x8F, e.uid, t.uid)
    && IsOptional(data, e.uid, 0x80, e.key, t.pubKey)
    && IntegerAt(data, e.key) == (e.version, Ok(t.version))
    && IsOptional(data, e.version, 0x8C, e.status, t.status)
    && (if t.slots.None? then e.slots == e.status && !NextTagIs(data, e.status, 0x02)
        else IntegerAt(data, e.status) == (e.slots, Ok(t.slots.value)) && NextTagIs(data, e.status, 0x02))
    && IsPresent(data, e.slots, 0x8E, e.keyUid, t.keyUid)
    && IsOptional(data, e.keyUid, 0x8D, e.caps, t.caps)
    && IsOptional(data, e.caps, 0x8A, e.cert, t.cert)
  }

  /** Exactly when a reply is accepted as that of an initialised card or not, and as what. */
  lemma AcceptedExactly(data: seq<byte>, info: ApplicationInfo)
    ensures Decode(data) == Ok(info) <==>
      || (exists pubKey, after :: IsPresent(data, 0, 0x80, after, pubKey) && info == Uninitialized(pubKey))
      || (exists t, e :: Spells(data, t, e) && Expected(t) == Ok(info))
  {
    hide PrimitiveAt, EnterAt, IntegerAt, OptionalAt, IsPresent, IsOptional, IsEntered, IsInitialized;
    if Decode(data) == Ok(info) {
      if NextTagIs(data, 0, TLV_PUB_KEY) {
        var (after, pubKey) := PrimitiveAt(data, 0, TLV_PUB_KEY);
        PresentExactly(data, 0, TLV_PUB_KEY, after, pubKey.value);
      } else {
        var t, e := DecodedTemplate(data, info);
      }
    }
    if pubKey: seq<byte>, after: nat :| IsPresent(data, 0, 0x80, after, pubKey) && info == Uninitialized(pubKey) {
      PresentExactly(data, 0, TLV_PUB_KEY, after, pubKey);
      PresentTag(data, 0, 0x80, after, pubKey);
    }
    if t: Template, e: Ends :| Spells(data, t, e) && Expected(t) == Ok(info) {
      SpelledIsDecoded(data, t, e, info);
    }
  }

  /** The template and the ends of its fields, as they are read. */
  lemma DecodedTemplate(data: seq<byte>, info: ApplicationInfo) returns (t: Template, e: Ends)
    requires Decode(data) == Ok(info) && !NextTagIs(data, 0, TLV_PUB_KEY)
    ensures Spells(data, t, e) && Expected(t) == Ok(info)
  {
    hide PrimitiveAt, EnterAt, IntegerAt, OptionalAt, IsPresent, IsOptional, IsEntered, IsInitialized;
    var (p0, length) := EnterAt(data, 0, TLV_APPLICATION_INFO_TEMPLATE);
    EnteredExactly(data, 0, TLV_APPLICATION_INFO_TEMPLATE, p0);
    var (p1, uid) := OptionalAt(data, p0, TLV_UID);
    OptionalExactly(data, p0, TLV_UID, p1, uid.value);
    var (p2, pubKey) := OptionalAt(data, p1, TLV_PUB_KEY);
    OptionalExactly(data, p1, TLV_PUB_KEY, p2, pubKey.value);
    var (p3, version) := IntegerAt(data, p2);
    var (p4, status) := OptionalAt(data, p3, TLV_STATUS);
    OptionalExactly(data, p3, TLV_STATUS, p4, status.value);
    var slots := if NextTagIs(data, p4, TLV_INT) then Some(IntegerAt(data, p4).1.value) else None;
    var p5 := SlotsAt(data, p4).0;
    var (p6, keyUid) := PrimitiveAt(data, p5, TLV_KEY_UID);
    PresentExactly(data, p5, TLV_KEY_UID, p6, keyUid.value);
    var (p7, caps) := OptionalAt(data, p6, TLV_CAPABILITIES);
    OptionalExactly(data, p6, TLV_CAPABILITIES, p7, caps.value);
    var (p8, cert) := OptionalAt(data, p7, TLV_CERT);
    OptionalExactly(data, p7, TLV_CERT, p8, cert.value);
    t := Template(uid.value, pubKey.value, version.value, status.value, slots, keyUid.value, caps.value, cert.value);
    e := Ends(p0, p1, p2, p3, p4, p5, p6, p7, p8);
  }

  lemma SpelledIsDecoded(data: seq<byte>, t: Template, e: Ends, info: ApplicationInfo)
    requires Spells(data, t, e) && Expected(t) == Ok(info)
    ensures Decode(data) == Ok(info)
  {
    hide PrimitiveAt, EnterAt, IntegerAt, OptionalAt, IsPresent, IsOptional, IsEntered, IsInitialized;
    EnteredTag(data, 0, 0xA4, e.enter);
    EnteredExactly(data, 0, TLV_APPLICATION_INFO_TEMPLATE, e.enter);
    OptionalExactly(data, e.enter, TLV_UID, e.uid, t.uid);
    OptionalExactly(data, e.uid, TLV_PUB_KEY, e.key, t.pubKey);
    OptionalExactly(data, e.version, TLV_STATUS, e.status, t.status);
    PresentExactly(data, e.slots, TLV_KEY_UID, e.keyUid, t.keyUid);
    OptionalExactly(data, e.keyUid, TLV_CAPABILITIES, e.caps, t.caps);
    OptionalExactly(data, e.caps, TLV_CERT, e.cert, t.cert);
  }
}
