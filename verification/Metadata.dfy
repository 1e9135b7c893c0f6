/** Card metadata: a short name and a set of wallet ids, stored as contiguous ranges. */
module Metadata {
  import opened Bytes
  import opened BerLength
  import opened Ranges
  import opened Utf8

  const MAX_WALLET_RANGE_COUNT := 100_000
  const MAX_TOTAL_WALLETS := 100_000
  const U64_LIMIT := 0x1_0000_0000_0000_0000

  /** What a metadata blob says: the UTF-8 bytes of the name and the wallet ids. */
  datatype Contents = Contents(name: seq<byte>, wallets: set<nat>)

  // --- Reading --------------------------------------------------------------

  /** A BER length field used as a 32-bit number. */
  function ReadNum(data: seq<byte>, off: nat): (r: Result<(nat, nat)>)
    ensures r.Ok? ==> r.value.0 < U32_LIMIT && off < r.value.1 <= |data|
  {
    match DecodeLength(data, off)
    case Err(e) => Err(e)
    case Ok((n, next)) =>
      DecodedFieldIsBounded(data, off);
      if n < U32_LIMIT then Ok((n, next)) else Err(Tlv)
  }

  /** The ranges from `off` to the end of the data, added to the ids found before. */
  function ParseRanges(data: seq<byte>, off: nat, total: nat, wallets: set<nat>): Result<set<nat>>
    decreases |data| - off
  {
    if off >= |data| then Ok(wallets)
    else
      match ReadNum(data, off)
      case Err(e) => Err(e)
      case Ok((start, off1)) =>
        match ReadNum(data, off1)
        case Err(e) => Err(e)
        case Ok((count, off2)) =>
          if count > MAX_WALLET_RANGE_COUNT then Err(Tlv)
          else if total + count + 1 > MAX_TOTAL_WALLETS then Err(Tlv)
          else
            ParseRanges(data, off2, total + count + 1, wallets + Range(start, count).Span())
  }

  function FromData(data: seq<byte>): Result<Contents> {
    if data == [] then Err(Tlv)
    else
      var header: int := data[0];
      var nameLen := header % 0x20;
      if header / 0x20 != 1 then Err(Tlv)
      else if 1 + nameLen > |data| then Err(Tlv)
      else
        var name := data[1..1 + nameLen];
        if !ValidUtf8(name) then Err(Tlv)
        else
          match ParseRanges(data, 1 + nameLen, 0, {})
          case Err(e) => Err(e)
          case Ok(wallets) => Ok(Contents(name, wallets))
  }

  // --- Writing --------------------------------------------------------------

  /** The version bit `0x20` set over the low byte of the name length. */
  function Header(nameLen: nat): byte {
    var low := nameLen % 0x100;
    if low / 0x20 % 2 == 1 then low else low + 0x20
  }

  function EncodeRange(r: Range): seq<byte> {
    EncodeLength(r.start) + EncodeLength(r.count)
  }

  function EncodeRanges(rs: seq<Range>): (s: seq<byte>)
    ensures |s| == Cost(rs)
  {
    if rs == [] then [] else EncodeRange(rs[0]) + EncodeRanges(rs[1..])
  }

  /** The cast of both numbers to 32 bits on the way out. */
  function Truncate(rs: seq<Range>): (ts: seq<Range>)
    ensures |ts| == |rs|
  {
    if rs == [] then []
    else [Range(rs[0].start % U32_LIMIT, rs[0].count % U32_LIMIT)] + Truncate(rs[1..])
  }

  ghost function ToBytes(m: Contents): seq<byte> {
    [Header(|m.name|)] + m.name + EncodeRanges(Truncate(CanonicalRuns(m.wallets)))
  }

  // --- The stored object ----------------------------------------------------

  class Metadata {
    var cardName: seq<byte>
    var wallets: set<nat>

    ghost predicate Valid()
      reads this
    {
      ValidUtf8(cardName) && forall w :: w in wallets ==> w < U64_LIMIT
    }

    ghost function Value(): Contents
      reads this
    {
      Contents(cardName, wallets)
    }

    constructor (cardName: seq<byte>)
      requires ValidUtf8(cardName)
      ensures Valid() && Value() == Contents(cardName, {})
    {
      this.cardName := cardName;
      this.wallets := {};
    }

    method SetCardName(name: seq<byte>) returns (r: Result<()>)
      requires Valid() && ValidUtf8(name)
      modifies this
      ensures Valid()
      ensures r == if |name| > 20 then Err(InvalidArgument) else Ok(())
      ensures Value() == old(if |name| > 20 then Value() else Contents(name, wallets))
    {
      if |name| > 20 {
        return Err(InvalidArgument);
      }
      cardName := name;
      return Ok(());
    }

    method AddWallet(walletId: nat)
      requires Valid() && walletId < U64_LIMIT
      modifies this
      ensures Valid() && Value() == old(Contents(cardName, wallets + {walletId}))
    {
      wallets := wallets + {walletId};
    }

    method RemoveWallet(walletId: nat)
      requires Valid()
      modifies this
      ensures Valid() && Value() == old(Contents(cardName, wallets - {walletId}))
    {
      wallets := wallets - {walletId};
    }

    method Serialize() returns (buf: seq<byte>)
      requires Valid()
      ensures buf == ToBytes(Value())
    {
      buf := [Header(|cardName|)];
      buf := buf + cardName;
      if wallets == {} {
        UnionEmpty(CanonicalRuns(wallets));
        return;
      }
      var q := InOrder(wallets);
      assert q != [] by {
        var w :| w in wallets;
        assert w in q;
      }
      forall i | 0 <= i < |q|
        ensures q[i] < U64_LIMIT
      {
        assert q[i] in q;
      }
      var ranges := Compress(q);
      assert ranges == CanonicalRuns(wallets) by {
        RunsNormal(q);
        assert Union(ranges) == wallets;
        NormalUnique(ranges, CanonicalRuns(wallets));
      }
      var encoded := WriteRanges(ranges);
      buf := buf + encoded;
    }
  }

  /** One pass over the ordered ids, extending the current range or starting a new one. The
      next id never makes the 64-bit sum overflow, because it is itself a 64-bit number. */
  method Compress(q: seq<nat>) returns (ranges: seq<Range>)
    requires q != [] && Increasing(q)
    requires forall i :: 0 <= i < |q| ==> q[i] < U64_LIMIT
    ensures ranges == Runs(q)
  {
    ranges := [];
    var start: nat, len: nat := q[0], 0;
    assert q[..1][..0] == [];
    for i := 1 to |q|
      invariant Runs(q[..i]) == ranges + [Range(start, len)]
      invariant start + len == q[i - 1]
    {
      var w := q[i];
      assert start + len + 1 < U64_LIMIT;
      assert q[..i + 1][..i] == q[..i];
      if w == start + len + 1 {
        len := len + 1;
      } else {
        ranges := ranges + [Range(start, len)];
        len := 0;
        start := w;
      }
    }
    ranges := ranges + [Range(start, len)];
    assert q[..|q|] == q;
  }

  method WriteRanges(ranges: seq<Range>) returns (buf: seq<byte>)
    ensures buf == EncodeRanges(Truncate(ranges))
  {
    buf := [];
    ghost var ts := Truncate(ranges);
    TruncateLength(ranges);
    for j := 0 to |ranges|
      invariant buf == EncodeRanges(ts[..j])
    {
      EncodeRangesSnoc(ts, j);
      buf := buf + EncodeLength(ranges[j].start % U32_LIMIT);
      buf := buf + EncodeLength(ranges[j].count % U32_LIMIT);
    }
    assert ts[..|ts|] == ts;
  }

  lemma {:induction false} TruncateLength(rs: seq<Range>)
    ensures forall i :: 0 <= i < |rs| ==>
      Truncate(rs)[i] == Range(rs[i].start % U32_LIMIT, rs[i].count % U32_LIMIT)
  {
    if rs != [] {
      TruncateLength(rs[1..]);
    }
  }

  lemma {:induction false} EncodeRangesSnoc(rs: seq<Range>, j: nat)
    requires j < |rs|
    ensures EncodeRanges(rs[..j + 1]) == EncodeRanges(rs[..j]) + EncodeRange(rs[j])
  {
    hide EncodeRange;
    if j == 0 {
      assert rs[..1][1..] == [];
    } else {
      EncodeRangesSnoc(rs[1..], j - 1);
      assert rs[..j + 1][1..] == rs[1..][..j];
      assert rs[..j][1..] == rs[1..][..j - 1];
    }
  }

  /** Parses a blob in one pass, counting every id before inserting it. */
  method Parse(data: seq<byte>) returns (r: Result<Contents>)
    ensures r == FromData(data)
  {
    hide DecodeLength, EncodeLength, ValidUtf8;
    if data == [] {
      return Err(Tlv);
    }
    var header: int := data[0];
    if header / 0x20 != 1 {
      return Err(Tlv);
    }
    var nameLen := header % 0x20;
    var off := 1;
    if off + nameLen > |data| {
      return Err(Tlv);
    }
    var name := data[off..off + nameLen];
    if !ValidUtf8(name) {
      return Err(Tlv);
    }
    off := off + nameLen;

    var wallets: set<nat> := {};
    var totalInserted: nat := 0;
    while off < |data|
      invariant ParseRanges(data, 1 + nameLen, 0, {}) == ParseRanges(data, off, totalInserted, wallets)
      decreases |data| - off
    {
      var s := DecodeBerLength(data, off);
      if s.Err? {
        return Err(s.error);
      }
      var (start, off1) := s.value;
      if start >= U32_LIMIT {
        return Err(Tlv);
      }
      DecodedFieldIsBounded(data, off);
      var c := DecodeBerLength(data, off1);
      if c.Err? {
        return Err(c.error);
      }
      var (count, off2) := c.value;
      if count >= U32_LIMIT {
        return Err(Tlv);
      }
      DecodedFieldIsBounded(data, off1);
      if count > MAX_WALLET_RANGE_COUNT {
        return Err(Tlv);
      }
      if totalInserted + count + 1 > MAX_TOTAL_WALLETS {
        return Err(Tlv);
      }
      ghost var before := wallets;
      for i := 0 to count + 1
        invariant wallets == before + set x | start <= x < start + i && Range(start, count).Covers(x)
      {
        wallets := wallets + {start + i};
      }
      assert wallets == before + Range(start, count).Span();
      off := off2;
      totalInserted := totalInserted + count + 1;
    }
    return Ok(Contents(name, wallets));
  }
}
