/** Cipher block chaining over an arbitrary block cipher: encryption with ISO 7816-4 padding,
    and the message authentication code of the version 1 channel. */
module Cbc {
  import opened Bytes

  const BLOCK_SIZE := 16

  type Block = b: seq<byte> | |b| == 16 witness Zeros(16)

  /** A block permutation and its inverse, under a key. */
  datatype Cipher = Cipher(
    encrypt: (seq<byte>, Block) -> Block,
    decrypt: (seq<byte>, Block) -> Block)

  ghost predicate LawfulCipher(c: Cipher) {
    forall k: seq<byte>, b: Block :: c.decrypt(k, c.encrypt(k, b)) == b
  }

  lemma IdentityIsLawful()
    ensures LawfulCipher(Cipher((k: seq<byte>, b: Block) => b, (k: seq<byte>, b: Block) => b))
  {
  }

  predicate Whole(s: seq<byte>) { |s| % 16 == 0 }

  // --- Padding --------------------------------------------------------------

  /** The marker byte 0x80, then zeros to the end of the block. */
  function Pad(data: seq<byte>): (p: seq<byte>)
    ensures Whole(p) && |p| == 16 * (|data| / 16 + 1)
  {
    data + [0x80] + Zeros(15 - |data| % 16)
  }

  /** Searches the last block backwards, over zeros, for the marker. */
  function UnpadFrom(p: seq<byte>, i: nat, low: nat): Option<seq<byte>>
    requires low <= i <= |p|
    decreases i
  {
    if i == low then None
    else if p[i - 1] == 0x80 then Some(p[..i - 1])
    else if p[i - 1] == 0 then UnpadFrom(p, i - 1, low)
    else None
  }

  function Unpad(p: seq<byte>): Option<seq<byte>>
    requires Whole(p)
  {
    if p == [] then None else UnpadFrom(p, |p|, |p| - 16)
  }

  lemma {:induction false} UnpadSkipsZeros(data: seq<byte>, n: nat, i: nat, low: nat)
    requires low <= |data| < i <= |data| + 1 + n
    ensures UnpadFrom(data + [0x80] + Zeros(n), i, low) == Some(data)
    decreases i
  {
    var p := data + [0x80] + Zeros(n);
    if i == |data| + 1 {
      assert p[i - 1] == 0x80 && p[..|data|] == data;
    } else {
      assert p[i - 1] == 0;
      UnpadSkipsZeros(data, n, i - 1, low);
    }
  }

  lemma PadRoundTrip(data: seq<byte>)
    ensures Unpad(Pad(data)) == Some(data)
  {
    UnpadSkipsZeros(data, 15 - |data| % 16, |Pad(data)|, |Pad(data)| - 16);
  }

  /** Exactly what is accepted: data, the marker, and at most fifteen zeros. */
  lemma UnpadExactly(p: seq<byte>, data: seq<byte>)
    requires Whole(p)
    ensures Unpad(p) == Some(data) <==>
      |data| < |p| <= |data| + 16 && p == data + [0x80] + Zeros(|p| - |data| - 1)
  {
    if |data| < |p| <= |data| + 16 && p == data + [0x80] + Zeros(|p| - |data| - 1) {
      UnpadSkipsZeros(data, |p| - |data| - 1, |p|, |p| - 16);
    }
    if p != [] && Unpad(p).Some? {
      UnpadFinds(p, |p|, |p| - 16);
    }
  }

  lemma {:induction false} UnpadFinds(p: seq<byte>, i: nat, low: nat)
    requires low <= i <= |p| && UnpadFrom(p, i, low).Some?
    ensures var data := UnpadFrom(p, i, low).value;
      low <= |data| < i && p[..i] == data + [0x80] + Zeros(i - |data| - 1)
    decreases i
  {
    if p[i - 1] == 0x80 {
      assert p[..i] == p[..i - 1] + [0x80] + Zeros(0);
    } else {
      UnpadFinds(p, i - 1, low);
      var data := UnpadFrom(p, i, low).value;
      assert p[..i] == p[..i - 1] + [0];
      assert Zeros(i - |data| - 1) == Zeros(i - |data| - 2) + [0];
    }
  }

  // --- Chaining -------------------------------------------------------------

  function Encrypt(c: Cipher, k: seq<byte>, iv: Block, p: seq<byte>): (r: seq<byte>)
    requires Whole(p)
    ensures |r| == |p|
    decreases |p|
  {
    if p == [] then []
    else
      var first := c.encrypt(k, XorBlock(p[..16], iv));
      first + Encrypt(c, k, first, p[16..])
  }

  function Decrypt(c: Cipher, k: seq<byte>, iv: Block, r: seq<byte>): (p: seq<byte>)
    requires Whole(r)
    ensures |p| == |r|
    decreases |r|
  {
    if r == [] then []
    else XorBlock(c.decrypt(k, r[..16]), iv) + Decrypt(c, k, r[..16], r[16..])
  }

  /** Decryption undoes encryption, whatever the key and the initial block. */
  lemma {:induction false} ChainRoundTrip(c: Cipher, k: seq<byte>, iv: Block, p: seq<byte>)
    requires LawfulCipher(c) && Whole(p)
    ensures Decrypt(c, k, iv, Encrypt(c, k, iv, p)) == p
    decreases |p|
  {
    if p != [] {
      var first := c.encrypt(k, XorBlock(p[..16], iv));
      var r := Encrypt(c, k, iv, p);
      assert r[..16] == first && r[16..] == Encrypt(c, k, first, p[16..]);
      XorBlockInvolutive(p[..16], iv);
      ChainRoundTrip(c, k, first, p[16..]);
      assert p == p[..16] + p[16..];
    }
  }

  function EncryptPadded(c: Cipher, k: seq<byte>, iv: Block, data: seq<byte>): (r: seq<byte>)
    ensures Whole(r) && |r| == 16 * (|data| / 16 + 1)
  {
    Encrypt(c, k, iv, Pad(data))
  }

  /** A ciphertext of partial blocks, or without a padding marker, is refused. */
  function DecryptPadded(c: Cipher, k: seq<byte>, iv: Block, r: seq<byte>): Option<seq<byte>> {
    if !Whole(r) then None else Unpad(Decrypt(c, k, iv, r))
  }

  lemma PaddedRoundTrip(c: Cipher, k: seq<byte>, iv: Block, data: seq<byte>)
    requires LawfulCipher(c)
    ensures DecryptPadded(c, k, iv, EncryptPadded(c, k, iv, data)) == Some(data)
  {
    ChainRoundTrip(c, k, iv, Pad(data));
    PadRoundTrip(data);
  }

  // --- Decryption under another initial block -------------------------------

  /** A text whose first block is mixed with two blocks. */
  function MixFirst(p: seq<byte>, a: Block, b: Block): (r: seq<byte>)
    requires |p| >= 16
    ensures |r| == |p|
  {
    XorBlock(XorBlock(p[..16], a), b) + p[16..]
  }

  /** Decryption under another initial block than that of encryption changes the first block,
      and only that. */
  lemma ChainUnderOther(c: Cipher, k: seq<byte>, a: Block, b: Block, p: seq<byte>)
    requires LawfulCipher(c) && Whole(p) && p != []
    ensures Decrypt(c, k, b, Encrypt(c, k, a, p)) == MixFirst(p, a, b)
  {
    var first := c.encrypt(k, XorBlock(p[..16], a));
    var r := Encrypt(c, k, a, p);
    assert r[..16] == first && r[16..] == Encrypt(c, k, first, p[16..]);
    ChainRoundTrip(c, k, first, p[16..]);
  }

  lemma {:induction false} UnpadSameEnd(p: seq<byte>, q: seq<byte>, i: nat, low: nat)
    requires low <= i <= |p| == |q| && p[low..] == q[low..]
    ensures
      var a, b := UnpadFrom(p, i, low), UnpadFrom(q, i, low);
      && (a.Some? <==> b.Some?)
      && (a.Some? ==> low <= |a.value| == |b.value| < i && a.value == p[..|a.value|] && b.value == q[..|a.value|])
    decreases i
  {
    if i > low {
      assert p[i - 1] == p[low..][i - 1 - low] && q[i - 1] == q[low..][i - 1 - low];
      UnpadSameEnd(p, q, i - 1, low);
    }
  }

  /** The initial block of decryption decides, of at least two blocks, neither whether they
      unpad, nor to how many bytes, nor to which after the first block. */
  lemma OtherBlockSameEnd(c: Cipher, k: seq<byte>, a: Block, b: Block, r: seq<byte>)
    requires |r| > 16
    ensures
      var p, q := DecryptPadded(c, k, a, r), DecryptPadded(c, k, b, r);
      && (p.Some? <==> q.Some?)
      && (p.Some? ==> |r| - 16 <= |p.value| == |q.value| < |r| && p.value[16..] == q.value[16..])
  {
    if Whole(r) {
      var p, q := Decrypt(c, k, a, r), Decrypt(c, k, b, r);
      var rest := Decrypt(c, k, r[..16], r[16..]);
      assert p[16..] == rest && q[16..] == rest;
      var low := |r| - 16;
      assert p[low..] == rest[low - 16..] && q[low..] == rest[low - 16..];
      UnpadSameEnd(p, q, |r|, low);
      if UnpadFrom(p, |r|, low).Some? {
        var n := |UnpadFrom(p, |r|, low).value|;
        assert p[..n][16..] == rest[..n - 16] && q[..n][16..] == rest[..n - 16];
      }
    }
  }

  /** One block never unpads to as much as a block. */
  lemma ShortUnpads(c: Cipher, k: seq<byte>, a: Block, r: seq<byte>)
    requires |r| <= 16
    ensures var p := DecryptPadded(c, k, a, r);
      p.Some? ==> |p.value| < 16
  {
    if Whole(r) && r != [] {
      var p := Decrypt(c, k, a, r);
      UnpadSameEnd(p, p, 16, 0);
    }
  }

  /** What data that was padded and encrypted under one initial block decrypts to under
      another. */
  function Reopened(data: seq<byte>, a: Block, b: Block): Option<seq<byte>> {
    Unpad(MixFirst(Pad(data), a, b))
  }

  lemma PaddedUnderOther(c: Cipher, k: seq<byte>, a: Block, b: Block, data: seq<byte>)
    requires LawfulCipher(c)
    ensures DecryptPadded(c, k, b, EncryptPadded(c, k, a, data)) == Reopened(data, a, b)
  {
    ChainUnderOther(c, k, a, b, Pad(data));
  }

  /** From one block of data on, the marker is beyond the block that changes: the data is
      always accepted, with its first block changed. */
  lemma LongDataReopens(data: seq<byte>, a: Block, b: Block)
    requires |data| >= 16
    ensures Reopened(data, a, b) == Some(MixFirst(data, a, b))
  {
    var mixed := MixFirst(data, a, b);
    var n := 15 - |data| % 16;
    assert MixFirst(Pad(data), a, b) == mixed + [0x80] + Zeros(n);
    UnpadSkipsZeros(mixed, n, |Pad(data)|, |Pad(data)| - 16);
  }

  /** Mixing in two blocks changes nothing exactly if they are the same. */
  lemma MixedIsSame(p: Block, a: Block, b: Block)
    ensures XorBlock(XorBlock(p, a), b) == p <==> a == b
  {
    XorBlockInvolutive(p, a);
    if XorBlock(XorBlock(p, a), b) == p {
      XorBlockCancels(XorBlock(p, a), a, b);
    }
  }

  lemma XorBlockCancels(p: Block, a: Block, b: Block)
    requires XorBlock(p, a) == XorBlock(p, b)
    ensures a == b
  {
    XorBlockCommutes(p, a);
    XorBlockCommutes(p, b);
    XorBlockInvolutive(a, p);
    XorBlockInvolutive(b, p);
  }

  // --- The authentication code ----------------------------------------------

  /** Every whole block is mixed into the running block, which is then encrypted. */
  function Mac(c: Cipher, k: seq<byte>, running: Block, m: seq<byte>): Block
    decreases |m|
  {
    if |m| < 16 then running
    else Mac(c, k, c.encrypt(k, XorBlock(running, m[..16])), m[16..])
  }

  lemma XorBlockCommutes(a: seq<byte>, b: seq<byte>)
    requires |a| == |b|
    ensures XorBlock(a, b) == XorBlock(b, a)
  {
    forall i | 0 <= i < |a|
      ensures Xor(a[i], b[i]) == Xor(b[i], a[i])
    {
      XorNatCommutes(a[i], b[i]);
    }
  }

  lemma {:induction false} XorNatCommutes(a: nat, b: nat)
    ensures XorNat(a, b) == XorNat(b, a)
    decreases a + b
  {
    if a != 0 || b != 0 {
      XorNatCommutes(a / 2, b / 2);
    }
  }

  /** The code is the last block of the chained encryption of the message. */
  lemma {:induction false} MacIsLastBlock(c: Cipher, k: seq<byte>, iv: Block, m: seq<byte>)
    requires Whole(m) && m != []
    ensures Mac(c, k, iv, m) == Encrypt(c, k, iv, m)[|m| - 16..]
    decreases |m|
  {
    XorBlockCommutes(iv, m[..16]);
    var first := c.encrypt(k, XorBlock(m[..16], iv));
    if |m| > 16 {
      MacIsLastBlock(c, k, first, m[16..]);
    } else {
      assert m[16..] == [];
      assert Encrypt(c, k, iv, m) == first + Encrypt(c, k, first, []);
    }
  }

  lemma {:induction false} MacSnoc(c: Cipher, k: seq<byte>, running: Block, m: seq<byte>, last: Block)
    requires Whole(m)
    ensures Mac(c, k, running, m + last) == c.encrypt(k, XorBlock(Mac(c, k, running, m), last))
    decreases |m|
  {
    if m == [] {
      assert (m + last)[..16] == last && (m + last)[16..] == [];
    } else {
      assert (m + last)[..16] == m[..16] && (m + last)[16..] == m[16..] + last;
      MacSnoc(c, k, c.encrypt(k, XorBlock(running, m[..16])), m[16..], last);
    }
  }

  /** Bytes after the last whole block do not count. */
  lemma {:induction false} MacIgnoresRest(c: Cipher, k: seq<byte>, running: Block, m: seq<byte>)
    ensures Mac(c, k, running, m) == Mac(c, k, running, m[..16 * (|m| / 16)])
    decreases |m|
  {
    if |m| >= 16 {
      var whole := m[..16 * (|m| / 16)];
      assert whole[..16] == m[..16];
      assert whole[16..] == m[16..][..16 * (|m[16..]| / 16)];
      MacIgnoresRest(c, k, c.encrypt(k, XorBlock(running, m[..16])), m[16..]);
    }
  }

  lemma EncryptInjective(c: Cipher, k: seq<byte>, a: Block, b: Block)
    requires LawfulCipher(c) && c.encrypt(k, a) == c.encrypt(k, b)
    ensures a == b
  {
    assert c.decrypt(k, c.encrypt(k, a)) == a;
    assert c.decrypt(k, c.encrypt(k, b)) == b;
  }

  lemma MaskInjective(c: Cipher, k: seq<byte>, mask: Block, a: Block, b: Block)
    requires LawfulCipher(c) && c.encrypt(k, XorBlock(a, mask)) == c.encrypt(k, XorBlock(b, mask))
    ensures a == b
  {
    EncryptInjective(c, k, XorBlock(a, mask), XorBlock(b, mask));
    XorBlockInvolutive(a, mask);
    XorBlockInvolutive(b, mask);
  }

  /** Different running blocks lead to different codes of the same message. */
  lemma {:induction false} MacInjective(c: Cipher, k: seq<byte>, a: Block, b: Block, m: seq<byte>)
    requires LawfulCipher(c) && Mac(c, k, a, m) == Mac(c, k, b, m)
    ensures a == b
    decreases |m|
  {
    if |m| >= 16 {
      MacInjective(c, k, c.encrypt(k, XorBlock(a, m[..16])), c.encrypt(k, XorBlock(b, m[..16])), m[16..]);
      MaskInjective(c, k, m[..16], a, b);
    }
  }
}
