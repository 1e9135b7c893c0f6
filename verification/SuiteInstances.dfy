/** Instances of the primitives that meet the laws assumed of them. */
module SuiteInstances {
  import opened Bytes
  import opened SecureChannelV2
  import V1 = SecureChannelV1
  import Cbc

  /** A suite that meets the laws of authenticated encryption: eight zero bytes as the tag. */
  const TOY_SUITE := Suite(
    (k: seq<byte>, n: seq<byte>, p: seq<byte>) => p + Zeros(8),
    (k: seq<byte>, n: seq<byte>, c: seq<byte>) =>
      if |c| >= 8 && c[|c| - 8..] == Zeros(8) then Some(c[..|c| - 8]) else None,
    (priv: seq<byte>) => Zeros(PUBKEY_SIZE),
    (encoded: seq<byte>) => Some(encoded),
    (priv: seq<byte>, point: seq<byte>) => [],
    (salt: seq<byte>, secret: seq<byte>) => (Zeros(16), Zeros(16)),
    (ident: seq<byte>, transcript: seq<byte>, signature: seq<byte>) => Ok(()))

  lemma ToySuiteIsLawful()
    ensures LawfulAead(TOY_SUITE)
  {
    forall k, n, p
      ensures TOY_SUITE.unseal(k, n, TOY_SUITE.seal(k, n, p)) == Some(p)
    {
      var c := p + Zeros(8);
      assert c[|c| - 8..] == Zeros(8) && c[..|c| - 8] == p;
    }
  }

  /** A signature of the size that is accepted. */
  const TOY_SIGN := (sk: seq<byte>, m: seq<byte>) => [0, 0]

  lemma ToySuiteHandshakes()
    ensures LawfulHandshake(TOY_SUITE, TOY_SIGN)
  {
  }

  /** The tag of a key and nonce that denote numbers of 32 bits. */
  function Tag(k: seq<byte>, n: seq<byte>): seq<byte> {
    BytesOf(0x1_0000_0000 * BigEndian(k) + BigEndian(n), 8)
  }

  /** A suite whose tag tells keys and nonces apart, and whose session keys are the salt. */
  const TAG_SUITE := TOY_SUITE
    .(seal := (k: seq<byte>, n: seq<byte>, p: seq<byte>) => p + Tag(k, n),
      unseal := (k: seq<byte>, n: seq<byte>, c: seq<byte>) =>
        if |c| >= 8 && c[|c| - 8..] == Tag(k, n) then Some(c[..|c| - 8]) else None,
      hkdf := (salt: seq<byte>, secret: seq<byte>) => (salt, salt))

  lemma TagSuiteIsLawful()
    ensures LawfulAead(TAG_SUITE) && LawfulHandshake(TAG_SUITE, TOY_SIGN)
  {
    hide BytesOf, BigEndian;
    forall k, n, p
      ensures TAG_SUITE.unseal(k, n, TAG_SUITE.seal(k, n, p)) == Some(p)
    {
      var c := TAG_SUITE.seal(k, n, p);
      assert c[|c| - 8..] == Tag(k, n) && c[..|c| - 8] == p;
    }
  }

  /** A key or nonce that denotes a number of 32 bits. */
  predicate Small(s: seq<byte>) {
    BigEndian(s) < 0x1_0000_0000
  }

  /** What is sealed under one small key and nonce is rejected under others. */
  lemma TagRejects(k: seq<byte>, n: seq<byte>, k': seq<byte>, n': seq<byte>, p: seq<byte>)
    requires Small(k) && Small(n) && Small(k') && Small(n')
    requires BigEndian(k) != BigEndian(k') || BigEndian(n) != BigEndian(n')
    ensures TAG_SUITE.unseal(k, n, TAG_SUITE.seal(k', n', p)) == None
  {
    TagValue(k, n);
    TagValue(k', n');
    hide BytesOf, BigEndian;
    var c := TAG_SUITE.seal(k', n', p);
    assert c[|c| - 8..] == Tag(k', n');
  }

  lemma TagValue(k: seq<byte>, n: seq<byte>)
    requires Small(k) && Small(n)
    ensures BigEndian(Tag(k, n)) == 0x1_0000_0000 * BigEndian(k) + BigEndian(n)
  {
    hide BytesOf, BigEndian;
    var tag := 0x1_0000_0000 * BigEndian(k) + BigEndian(n);
    BytesOfValue(tag, 8);
    SixtyFourBits();
    hide Pow256;
    SmallMod(tag, Pow256(8));
  }

  lemma SixtyFourBits()
    ensures Pow256(8) == 0x1_0000_0000_0000_0000
  {
    Pow256Values();
    assert Pow256(6) == 256 * Pow256(5);
    assert Pow256(8) == 256 * Pow256(7);
  }

  lemma SmallMod(n: nat, m: nat)
    requires n < m
    ensures n % m == n
  {
  }

  /** A version 1 suite that meets its laws. */
  const TOY_SUITE_V1 := V1.Suite(
    Cbc.Cipher((k: seq<byte>, b: Cbc.Block) => b, (k: seq<byte>, b: Cbc.Block) => b),
    (priv: seq<byte>) => Zeros(V1.PUBLIC_KEY_SIZE),
    (encoded: seq<byte>) => Some(encoded),
    (priv: seq<byte>, point: seq<byte>) => [],
    (secret: seq<byte>, pairingKey: seq<byte>, salt: seq<byte>) => (salt, salt))

  lemma ToySuiteV1IsLawful()
    ensures Cbc.LawfulCipher(TOY_SUITE_V1.cipher) && V1.LawfulAgreement(TOY_SUITE_V1)
  {
  }
}
