/** BIP32 key pairs and their TLV form. */
module Bip32 {
  import opened Bytes
  import opened BerLength
  import opened TlvCodec
  import opened OptionalFields

  const TLV_KEY_TEMPLATE: byte := 0xA1
  const TLV_PUB_KEY: byte := 0x80
  const TLV_PRIV_KEY: byte := 0x81
  const TLV_CHAIN_CODE: byte := 0x82

  datatype KeyPair = KeyPair(privateKey: Option<seq<byte>>, chainCode: Option<seq<byte>>, publicKey: seq<byte>)

  /** Drops one zero byte in front of a key longer than 32 bytes. */
  function StripLeadingZero(key: seq<byte>): seq<byte> {
    if |key| > 32 && key[0] == 0 then key[1..] else key
  }

  /** A padding byte does not count: the stripped key denotes the same number, and a key of at
      most 33 bytes is stripped once and for all, to 32 bytes if it was padded. */
  lemma StrippedKeyDenotesSame(key: seq<byte>)
    ensures BigEndian(StripLeadingZero(key)) == BigEndian(key)
    ensures |key| <= 33 ==> StripLeadingZero(StripLeadingZero(key)) == StripLeadingZero(key)
    ensures |key| == 33 ==> (|StripLeadingZero(key)| == 32 <==> key[0] == 0)
  {
    hide BigEndian;
    if |key| > 32 && key[0] == 0 {
      LeadingZero(key);
    }
  }

  function StripKey(key: Option<seq<byte>>): Option<seq<byte>> {
    match key
    case None => None
    case Some(k) => Some(StripLeadingZero(k))
  }

  /** Scalar multiplication: the public key of raw private key bytes, empty if they are none. */
  type PublicKeyOf = seq<byte> -> seq<byte>

  function DerivedPublic(derive: PublicKeyOf, privateKey: Option<seq<byte>>): seq<byte> {
    match privateKey
    case None => []
    case Some(k) => derive(StripLeadingZero(k))
  }

  /** A given public key is taken as it is, else it is derived. */
  function NewKeyPair(derive: PublicKeyOf, privateKey: Option<seq<byte>>, chainCode: Option<seq<byte>>,
                      publicKey: Option<seq<byte>>): KeyPair {
    KeyPair(privateKey, chainCode, if publicKey.Some? then publicKey.value else DerivedPublic(derive, privateKey))
  }

  function PublicField(k: KeyPair, includePublic: bool): Option<seq<byte>> {
    if includePublic then Some(k.publicKey) else None
  }

  function Fields(k: KeyPair, includePublic: bool): seq<byte> {
    EncodeOptional(TLV_PUB_KEY, PublicField(k, includePublic))
    + EncodeOptional(TLV_PRIV_KEY, StripKey(k.privateKey))
    + EncodeOptional(TLV_CHAIN_CODE, k.chainCode)
  }

  function Encode(k: KeyPair, includePublic: bool): seq<byte> {
    EncodePrimitive(TLV_KEY_TEMPLATE, Fields(k, includePublic))
  }

  function Decode(derive: PublicKeyOf, data: seq<byte>): Result<KeyPair> {
    var (p0, entered) := EnterAt(data, 0, TLV_KEY_TEMPLATE);
    if entered.Err? then Err(entered.error)
    else
      var (p1, pub) := OptionalAt(data, p0, TLV_PUB_KEY);
      if pub.Err? then Err(pub.error)
      else
        var (p2, priv) := OptionalAt(data, p1, TLV_PRIV_KEY);
        if priv.Err? then Err(priv.error)
        else
          var (p3, chain) := OptionalAt(data, p2, TLV_CHAIN_CODE);
          if chain.Err? then Err(chain.error)
          else Ok(NewKeyPair(derive, priv.value, chain.value, pub.value))
  }

  method ToTlv(k: KeyPair, includePublic: bool) returns (data: seq<byte>)
    ensures data == Encode(k, includePublic)
  {
    hide EncodePrimitive, StripLeadingZero;
    var content := new BerTlvWriter();
    if includePublic {
      content.WritePrimitive(TLV_PUB_KEY, k.publicKey);
    }
    if k.privateKey.Some? {
      content.WritePrimitive(TLV_PRIV_KEY, StripLeadingZero(k.privateKey.value));
    }
    if k.chainCode.Some? {
      content.WritePrimitive(TLV_CHAIN_CODE, k.chainCode.value);
    }
    assert content.buffer == Fields(k, includePublic);
    var writer := new BerTlvWriter();
    writer.WritePrimitive(TLV_KEY_TEMPLATE, content.buffer);
    return writer.buffer;
  }

  method FromTlv(derive: PublicKeyOf, data: seq<byte>) returns (r: Result<KeyPair>)
    ensures r == Decode(derive, data)
  {
    var reader := new BerTlvReader(data);
    var entered := reader.EnterConstructed(TLV_KEY_TEMPLATE);
    if entered.Err? {
      return Err(entered.error);
    }
    var pub := ReadOptional(reader, TLV_PUB_KEY);
    if pub.Err? {
      return Err(pub.error);
    }
    var priv := ReadOptional(reader, TLV_PRIV_KEY);
    if priv.Err? {
      return Err(priv.error);
    }
    var chain := ReadOptional(reader, TLV_CHAIN_CODE);
    if chain.Err? {
      return Err(chain.error);
    }
    return Ok(NewKeyPair(derive, priv.value, chain.value, pub.value));
  }

  ghost predicate Small(k: KeyPair, includePublic: bool) {
    && Short(PublicField(k, includePublic)) && Short(StripKey(k.privateKey)) && Short(k.chainCode)
  }

  /** What reading a written key pair gives: the private key without its padding byte, the
      chain code, and the public key if it was included, else the derived one. */
  lemma DecodeEncoded(derive: PublicKeyOf, k: KeyPair, includePublic: bool)
    requires Small(k, includePublic)
    ensures Decode(derive, Encode(k, includePublic))
      == Ok(NewKeyPair(derive, StripKey(k.privateKey), k.chainCode, PublicField(k, includePublic)))
  {
    hide EncodeOptional, OptionalAt, EnterAt, EncodeLength, NewKeyPair, StripKey, PublicField, Short;
    var pubField := EncodeOptional(TLV_PUB_KEY, PublicField(k, includePublic));
    var privField := EncodeOptional(TLV_PRIV_KEY, StripKey(k.privateKey));
    var chainField := EncodeOptional(TLV_CHAIN_CODE, k.chainCode);
    var content := Fields(k, includePublic);
    var data := Encode(k, includePublic);
    var head := [TLV_KEY_TEMPLATE] + EncodeLength(|content|);
    assert data == head + pubField + privField + chainField;
    assert EnterAt(data, 0, TLV_KEY_TEMPLATE).0 == |head| && EnterAt(data, 0, TLV_KEY_TEMPLATE).1.Ok? by {
      EnterWritten([], TLV_KEY_TEMPLATE, content, []);
      assert [] + data + [] == data;
    }
    assert OptionalAt(data, |head|, TLV_PUB_KEY) == (|head + pubField|, Ok(PublicField(k, includePublic))) by {
      NotNextField(TLV_PUB_KEY, TLV_CHAIN_CODE, k.chainCode, []);
      NotNextField(TLV_PUB_KEY, TLV_PRIV_KEY, StripKey(k.privateKey), chainField);
      assert chainField + [] == chainField && data == head + pubField + (privField + chainField);
      OptionalWritten(head, TLV_PUB_KEY, PublicField(k, includePublic), privField + chainField);
    }
    assert OptionalAt(data, |head + pubField|, TLV_PRIV_KEY)
        == (|head + pubField + privField|, Ok(StripKey(k.privateKey))) by {
      NotNextField(TLV_PRIV_KEY, TLV_CHAIN_CODE, k.chainCode, []);
      assert chainField + [] == chainField;
      OptionalWritten(head + pubField, TLV_PRIV_KEY, StripKey(k.privateKey), chainField);
    }
    assert OptionalAt(data, |head + pubField + privField|, TLV_CHAIN_CODE) == (|data|, Ok(k.chainCode)) by {
      assert data == (head + pubField + privField) + chainField + [];
      OptionalWritten(head + pubField + privField, TLV_CHAIN_CODE, k.chainCode, []);
    }
  }

  /** Exactly when the key pair is restored, up to the padding byte of the private key: when
      the public key is included, or is the one derived from the private key as written. */
  lemma KeyPairRoundTrip(derive: PublicKeyOf, k: KeyPair, includePublic: bool)
    requires Small(k, includePublic)
    ensures Decode(derive, Encode(k, includePublic)) == Ok(k.(privateKey := StripKey(k.privateKey)))
      <==> includePublic || k.publicKey == DerivedPublic(derive, StripKey(k.privateKey))
  {
    hide Encode, Decode, Small;
    DecodeEncoded(derive, k, includePublic);
  }

  /** So every pair whose public key belongs to a private key of at most 33 bytes is restored
      with or without its public key. */
  lemma ConsistentKeyPairRestored(derive: PublicKeyOf, privateKey: seq<byte>, chainCode: Option<seq<byte>>, includePublic: bool)
    requires |privateKey| <= 33
    requires Small(NewKeyPair(derive, Some(privateKey), chainCode, None), includePublic)
    ensures var k := NewKeyPair(derive, Some(privateKey), chainCode, None);
      Decode(derive, Encode(k, includePublic)) == Ok(k.(privateKey := Some(StripLeadingZero(privateKey))))
  {
    hide Encode, Decode, Small;
    KeyPairRoundTrip(derive, NewKeyPair(derive, Some(privateKey), chainCode, None), includePublic);
  }

  /** Where a public key comes from: it is the given one, or else that of the last 32 bytes of a
      private key of 32 bytes, with or without a zero byte in front; without either it is empty. */
  lemma PublicKeyExactly(derive: PublicKeyOf, key: seq<byte>, chainCode: Option<seq<byte>>, publicKey: seq<byte>)
    requires |key| == 32
    ensures NewKeyPair(derive, Some(key), chainCode, None) == KeyPair(Some(key), chainCode, derive(key))
    ensures NewKeyPair(derive, Some([0] + key), chainCode, None) == KeyPair(Some([0] + key), chainCode, derive(key))
    ensures NewKeyPair(derive, None, chainCode, None) == KeyPair(None, chainCode, [])
    ensures forall priv :: NewKeyPair(derive, priv, chainCode, Some(publicKey)) == KeyPair(priv, chainCode, publicKey)
  {
    assert ([0] + key)[1..] == key;
  }

  /** A byte in front that is not zero stays, and so does a zero of a key of at most 32 bytes. */
  lemma KeptAsItIs(derive: PublicKeyOf, key: seq<byte>)
    requires key != [] && (key[0] != 0 || |key| <= 32)
    ensures NewKeyPair(derive, Some(key), None, None).publicKey == derive(key)
  {
  }

  /** So a pair written without its public key comes back with that of the same 32 bytes. */
  lemma PublicKeyIsDerived(derive: PublicKeyOf, key: seq<byte>, padded: bool, chainCode: Option<seq<byte>>, publicKey: seq<byte>)
    requires |key| == 32 && Short(chainCode)
    ensures
      var k := KeyPair(Some(if padded then [0] + key else key), chainCode, publicKey);
      Decode(derive, Encode(k, false)) == Ok(KeyPair(Some(key), chainCode, derive(key)))
  {
    hide Decode, Encode;
    var k := KeyPair(Some(if padded then [0] + key else key), chainCode, publicKey);
    assert ([0] + key)[1..] == key;
    DecodeEncoded(derive, k, false);
  }

  /** Exactly when bytes are accepted as a key pair, and as which: the tag of the template and any
      length field, then its fields in order as far as they are there; what follows does not
      matter. */
  lemma AcceptedExactly(derive: PublicKeyOf, data: seq<byte>, k: KeyPair)
    ensures Decode(derive, data) == Ok(k)
      <==> exists e: seq<nat>, publicKey: Option<seq<byte>> :: Spells(derive, data, k, publicKey, e)
  {
    hide EnterAt, OptionalAt, IsOptional, IsEntered, DerivedPublic;
    if Decode(derive, data) == Ok(k) {
      var (p0, length) := EnterAt(data, 0, TLV_KEY_TEMPLATE);
      EnteredExactly(data, 0, TLV_KEY_TEMPLATE, p0);
      var (p1, pub) := OptionalAt(data, p0, TLV_PUB_KEY);
      OptionalExactly(data, p0, TLV_PUB_KEY, p1, pub.value);
      var (p2, priv) := OptionalAt(data, p1, TLV_PRIV_KEY);
      OptionalExactly(data, p1, TLV_PRIV_KEY, p2, priv.value);
      var (p3, chain) := OptionalAt(data, p2, TLV_CHAIN_CODE);
      OptionalExactly(data, p2, TLV_CHAIN_CODE, p3, chain.value);
      assert Spells(derive, data, k, pub.value, [p0, p1, p2, p3]);
    }
    if e: seq<nat>, publicKey: Option<seq<byte>> :| Spells(derive, data, k, publicKey, e) {
      EnteredExactly(data, 0, TLV_KEY_TEMPLATE, e[0]);
      OptionalExactly(data, e[0], TLV_PUB_KEY, e[1], publicKey);
      OptionalExactly(data, e[1], TLV_PRIV_KEY, e[2], k.privateKey);
      OptionalExactly(data, e[2], TLV_CHAIN_CODE, e[3], k.chainCode);
    }
  }

  ghost predicate Spells(derive: PublicKeyOf, data: seq<byte>, k: KeyPair, publicKey: Option<seq<byte>>, e: seq<nat>) {
    && k.publicKey == (if publicKey.Some? then publicKey.value else DerivedPublic(derive, k.privateKey))
    && |e| == 4 && IsEntered(data, 0, 0xA1, e[0])
    && IsOptional(data, e[0], 0x80, e[1], publicKey)
    && IsOptional(data, e[1], 0x81, e[2], k.privateKey)
    && IsOptional(data, e[2], 0x82, e[3], k.chainCode)
  }
}
