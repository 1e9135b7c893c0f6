/** Bytes, big-endian numbers, exclusive or, and the result types every component shares. */
module Bytes {

  type byte = b: int | 0 <= b < 256

  datatype Option<+T> = None | Some(value: T)

  /** The crate's error variants; message texts are not modelled. */
  datatype Error =
    | Apdu(sw: int)
    | Io
    | Tlv
    | Crypto
    | Protocol
    | InvalidArgument

  datatype Result<+T> = Ok(value: T) | Err(error: Error)

  /** Both ways of grouping the parts of a text around its middle. */
  lemma Regroup<T>(pre: seq<T>, first: seq<T>, rest: seq<T>, suffix: seq<T>)
    ensures pre + (first + rest) + suffix == pre + first + (rest + suffix)
    ensures pre + (first + rest) + suffix == (pre + first) + rest + suffix
  {
  }

  // --- Big-endian numbers ---------------------------------------------------

  function Pow256(n: nat): (p: nat)
    ensures p > 0
  {
    if n == 0 then 1 else 256 * Pow256(n - 1)
  }

  /** The value of a byte string read as a big-endian number. */
  function BigEndian(s: seq<byte>): (n: nat)
  {
    if s == [] then 0 else 256 * BigEndian(s[..|s| - 1]) + s[|s| - 1]
  }

  lemma {:induction false} BigEndianBound(s: seq<byte>)
    ensures BigEndian(s) < Pow256(|s|)
  {
    if s != [] {
      BigEndianBound(s[..|s| - 1]);
    }
  }

  /** Two byte strings of one length that denote the same number are equal. */
  lemma {:induction false} BigEndianInjective(s: seq<byte>, t: seq<byte>)
    requires |s| == |t|
    requires BigEndian(s) == BigEndian(t)
    ensures s == t
  {
    if s != [] {
      BigEndianInjective(s[..|s| - 1], t[..|t| - 1]);
      assert s == s[..|s| - 1] + [s[|s| - 1]];
      assert t == t[..|t| - 1] + [t[|t| - 1]];
    }
  }

  /** The low `k` bytes of a number, most significant first. */
  function BytesOf(n: nat, k: nat): (s: seq<byte>)
    ensures |s| == k
  {
    if k == 0 then [] else BytesOf(n / 256, k - 1) + [n % 256]
  }

  /** Writing a number in `k` bytes keeps it modulo 256^k. */
  lemma {:induction false} BytesOfValue(n: nat, k: nat)
    ensures BigEndian(BytesOf(n, k)) == n % Pow256(k)
  {
    if k > 0 {
      BytesOfValue(n / 256, k - 1);
      assert BytesOf(n, k)[..k - 1] == BytesOf(n / 256, k - 1);
      ModStep(n, Pow256(k - 1));
    }
  }

  lemma ModStep(n: nat, m: nat)
    requires m > 0
    ensures 256 * (n / 256 % m) + n % 256 == n % (256 * m)
  {
    var q := n / 256 / m;
    var r := 256 * (n / 256 % m) + n % 256;
    assert n / 256 == q * m + n / 256 % m;
    assert n == q * (256 * m) + r;
    assert 0 <= r < 256 * m;
    ModUnique(n, 256 * m, q, r);
  }

  lemma ModUnique(n: nat, d: nat, q: nat, r: nat)
    requires d > 0 && n == q * d + r && r < d
    ensures n % d == r
  {
    var q' := n / d;
    assert n == q' * d + n % d;
    assert (q - q') * d == n % d - r;
    if q > q' {
      MulAtLeast(q - q', d);
    } else if q < q' {
      MulAtLeast(q' - q, d);
    }
  }

  lemma MulAtLeast(a: int, d: nat)
    requires a >= 1
    ensures a * d >= d
  {
  }

  /** Bytes are recovered from the number they denote. */
  lemma {:induction false} BytesOfBigEndian(s: seq<byte>)
    ensures BytesOf(BigEndian(s), |s|) == s
  {
    if s != [] {
      var init := s[..|s| - 1];
      BytesOfBigEndian(init);
      assert BigEndian(s) / 256 == BigEndian(init);
      assert s == init + [s[|s| - 1]];
    }
  }

  lemma Pow256Values()
    ensures Pow256(1) == 0x100 && Pow256(2) == 0x1_0000 && Pow256(3) == 0x100_0000
    ensures Pow256(4) == 0x1_0000_0000
  {
    assert Pow256(1) == 256 * Pow256(0);
    assert Pow256(3) == 256 * Pow256(2);
  }

  /** A leading byte weighs 256 to the number of bytes after it. */
  lemma {:induction false} BigEndianCons(b: byte, s: seq<byte>)
    ensures BigEndian([b] + s) == b * Pow256(|s|) + BigEndian(s)
  {
    if s == [] {
      assert [b] + s == [b];
      assert BigEndian([b]) == 256 * BigEndian([]) + b;
    } else {
      var init := s[..|s| - 1];
      BigEndianCons(b, init);
      assert ([b] + s)[..|s|] == [b] + init;
      assert 256 * (b * Pow256(|init|)) == b * Pow256(|s|);
    }
  }

  // --- Exclusive or ---------------------------------------------------------

  /** Bitwise exclusive or of two numbers, lowest bit first. */
  function XorNat(a: nat, b: nat): nat
    decreases a + b
  {
    if a == 0 && b == 0 then 0
    else (if a % 2 == b % 2 then 0 else 1) + 2 * XorNat(a / 2, b / 2)
  }

  lemma {:induction false} XorNatBound(a: nat, b: nat, bits: nat)
    requires a < Pow2(bits) && b < Pow2(bits)
    ensures XorNat(a, b) < Pow2(bits)
    decreases bits
  {
    if bits > 0 {
      XorNatBound(a / 2, b / 2, bits - 1);
    }
  }

  function Pow2(n: nat): (p: nat)
    ensures p > 0
  {
    if n == 0 then 1 else 2 * Pow2(n - 1)
  }

  function Xor(a: byte, b: byte): byte
  {
    assert Pow2(8) == 256 by { Pow2Eight(); }
    XorNatBound(a, b, 8);
    XorNat(a, b)
  }

  lemma Pow2Eight()
    ensures Pow2(8) == 256
  {
    assert Pow2(2) == 4;
    assert Pow2(4) == 16;
    assert Pow2(6) == 64;
  }

  /** Masking twice with the same number gives back the original. */
  lemma {:induction false} XorNatInvolutive(a: nat, b: nat)
    ensures XorNat(XorNat(a, b), b) == a
    decreases a + b
  {
    if a != 0 || b != 0 {
      XorNatInvolutive(a / 2, b / 2);
      var x := XorNat(a, b);
      assert x / 2 == XorNat(a / 2, b / 2);
      assert x % 2 == if a % 2 == b % 2 then 0 else 1;
    }
  }

  /** Byte-wise exclusive or of two blocks. */
  function XorBlock(a: seq<byte>, b: seq<byte>): (r: seq<byte>)
    requires |a| == |b|
    ensures |r| == |a|
  {
    seq(|a|, i requires 0 <= i < |a| => Xor(a[i], b[i]))
  }

  lemma XorBlockInvolutive(a: seq<byte>, b: seq<byte>)
    requires |a| == |b|
    ensures XorBlock(XorBlock(a, b), b) == a
  {
    forall i | 0 <= i < |a|
      ensures XorBlock(XorBlock(a, b), b)[i] == a[i]
    {
      XorNatInvolutive(a[i], b[i]);
    }
  }

  /** `n` zero bytes. */
  function Zeros(n: nat): (z: seq<byte>)
    ensures |z| == n
  {
    seq(n, _ => 0)
  }

  lemma BigEndianZeros(n: nat)
    ensures BigEndian(Zeros(n)) == 0
  {
    if n > 0 {
      assert Zeros(n)[..n - 1] == Zeros(n - 1);
      BigEndianZeros(n - 1);
    }
  }
}
