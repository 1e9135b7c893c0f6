/** What the metadata codec promises: the written form is the shortest accepted one, reading
    and rewriting loses nothing, and exactly which contents survive being written and read. */
module MetadataLaws {
  import opened Bytes
  import opened BerLength
  import opened Ranges
  import opened Metadata
  import opened Utf8

  // --- Reading back a written list of ranges --------------------------------

  ghost predicate Narrow(rs: seq<Range>) {
    forall i :: 0 <= i < |rs| ==> rs[i].start < U32_LIMIT && rs[i].count < U32_LIMIT
  }

  lemma ReadRangeWritten(pre: seq<byte>, r: Range, rest: seq<byte>)
    requires r.start < U32_LIMIT && r.count < U32_LIMIT
    ensures var data := pre + EncodeRange(r) + rest;
      var mid := |pre| + |EncodeLength(r.start)|;
      && ReadNum(data, |pre|) == Ok((r.start, mid))
      && ReadNum(data, mid) == Ok((r.count, |pre| + |EncodeRange(r)|))
  {
    hide EncodeLength, DecodeLength;
    var s, c := EncodeLength(r.start), EncodeLength(r.count);
    var data := pre + EncodeRange(r) + rest;
    assert data == pre + s + (c + rest);
    LengthRoundTrip(pre, r.start, c + rest);
    assert data == (pre + s) + c + rest;
    LengthRoundTrip(pre + s, r.count, rest);
  }

  /** One step of the parser, once both numbers are read. */
  lemma ParseStep(data: seq<byte>, off: nat, mid: nat, next: nat, r: Range, total: nat, w: set<nat>)
    requires ReadNum(data, off) == Ok((r.start, mid))
    requires ReadNum(data, mid) == Ok((r.count, next))
    requires total <= MAX_TOTAL_WALLETS
    ensures ParseRanges(data, off, total, w)
      == if total + r.count + 1 <= MAX_TOTAL_WALLETS
         then ParseRanges(data, next, total + r.count + 1, w + r.Span()) else Err(Tlv)
  {
  }

  /** Written ranges are accepted exactly when their total stays within the cap, and then
      yield exactly their union. */
  lemma {:induction false} ParseWritten(pre: seq<byte>, rs: seq<Range>, total: nat, w: set<nat>)
    requires Narrow(rs) && total <= MAX_TOTAL_WALLETS
    ensures ParseRanges(pre + EncodeRanges(rs), |pre|, total, w)
      == if total + Size(rs) <= MAX_TOTAL_WALLETS then Ok(w + Union(rs)) else Err(Tlv)
    decreases |rs|
  {
    hide EncodeLength, EncodeRange, ReadNum;
    if rs == [] {
      assert w + {} == w;
    } else {
      var r, rest := rs[0], EncodeRanges(rs[1..]);
      assert pre + EncodeRanges(rs) == pre + EncodeRange(r) + rest;
      ReadRangeWritten(pre, r, rest);
      var next := |pre| + |EncodeRange(r)|;
      ParseStep(pre + EncodeRanges(rs), |pre|, |pre| + |EncodeLength(r.start)|, next, r, total, w);
      if total + r.count + 1 <= MAX_TOTAL_WALLETS {
        ParseWritten(pre + EncodeRange(r), rs[1..], total + r.count + 1, w + r.Span());
        assert w + Union(rs) == w + r.Span() + Union(rs[1..]);
      }
    }
  }

  // --- What an accepted blob can contain ------------------------------------

  /** Above the 32-bit range an id can be present only together with its predecessor. */
  ghost predicate Anchored(w: set<nat>) {
    forall x :: x in w && x >= U32_LIMIT ==> x - 1 in w
  }

  lemma {:induction false} ParsedIsAnchored(data: seq<byte>, off: nat, total: nat, w: set<nat>)
    requires ParseRanges(data, off, total, w).Ok?
    requires Anchored(w) && |w| <= total <= MAX_TOTAL_WALLETS
    ensures Anchored(ParseRanges(data, off, total, w).value)
    ensures |ParseRanges(data, off, total, w).value| <= MAX_TOTAL_WALLETS
    decreases |data| - off
  {
    if off < |data| {
      var (start, off1) := ReadNum(data, off).value;
      var (count, off2) := ReadNum(data, off1).value;
      var r := Range(start, count);
      SpanSize(r);
      assert |w + r.Span()| <= |w| + |r.Span()|;
      ParsedIsAnchored(data, off2, total + count + 1, w + r.Span());
    }
  }

  lemma NumCost(data: seq<byte>, off: nat)
    requires ReadNum(data, off).Ok?
    ensures var (n, next) := ReadNum(data, off).value; |EncodeLength(n)| <= next - off
  {
    DecodedFieldIsBounded(data, off);
  }

  /** Parsing from a normal list ends at a normal list that costs no more than what was
      spent plus the bytes read: each parsed range is merged at no extra cost. */
  lemma {:induction false} ParsedRunsAreCheap(data: seq<byte>, off: nat, total: nat, rs: seq<Range>)
    returns (ts: seq<Range>)
    requires off <= |data|
    requires ParseRanges(data, off, total, Union(rs)).Ok?
    requires Normal(rs)
    ensures Normal(ts) && Union(ts) == ParseRanges(data, off, total, Union(rs)).value
    ensures Cost(ts) <= Cost(rs) + |data| - off
    decreases |data| - off
  {
    hide EncodeLength, DecodeLength, ReadNum, Insert;
    ts := rs;
    if off < |data| {
      var (start, off1) := ReadNum(data, off).value;
      var (count, off2) := ReadNum(data, off1).value;
      var r := Range(start, count);
      InsertNormal(rs, r);
      InsertCost(rs, r);
      NumCost(data, off);
      NumCost(data, off1);
      ts := ParsedRunsAreCheap(data, off2, total + count + 1, Insert(rs, r));
    }
  }

  lemma {:induction false} TruncateCost(rs: seq<Range>)
    ensures Cost(Truncate(rs)) <= Cost(rs)
  {
    if rs != [] {
      LengthSizeMonotone(rs[0].start % U32_LIMIT, rs[0].start);
      LengthSizeMonotone(rs[0].count % U32_LIMIT, rs[0].count);
      TruncateCost(rs[1..]);
    }
  }

  /** Optimality: no accepted blob with the same name and wallets is shorter than the
      written form. */
  lemma WrittenFormIsShortest(data: seq<byte>)
    requires FromData(data).Ok?
    ensures |ToBytes(FromData(data).value)| <= |data|
  {
    var m := FromData(data).value;
    var ts := ParsedRunsAreCheap(data, 1 + |m.name|, 0, []);
    NormalUnique(ts, CanonicalRuns(m.wallets));
    TruncateCost(ts);
  }

  // --- Round trips ----------------------------------------------------------

  /** A header byte always carries the low five bits of the name length, and is accepted
      with the full length exactly when that is at most 31. */
  /** The header sets the version bit and keeps the other bits of the low byte of the length. */
  lemma HeaderFields(n: nat)
    ensures Header(n) == 0x40 * (n % 0x100 / 0x40) + 0x20 + n % 0x20
    ensures Header(n) % 0x20 == n % 0x20
    ensures n <= 31 ==> Header(n) / 0x20 == 1
  {
    var low := n % 0x100;
    var high, middle, rest := low / 0x40, low % 0x40 / 0x20, low % 0x20;
    assert low == 0x40 * high + 0x20 * middle + rest;
    assert low / 0x20 == 2 * high + middle;
    assert n == 0x100 * (n / 0x100) + low;
    assert n % 0x20 == rest;
  }

  lemma AnchoredRuns(w: set<nat>)
    requires Anchored(w) && |w| <= MAX_TOTAL_WALLETS
    ensures Narrow(CanonicalRuns(w))
  {
    var rs := CanonicalRuns(w);
    forall i | 0 <= i < |rs|
      ensures rs[i].start < U32_LIMIT && rs[i].count < U32_LIMIT
    {
      NormalGap(rs, i);
      RangeSize(rs, i);
    }
  }

  lemma {:induction false} TruncateNarrow(rs: seq<Range>)
    requires Narrow(rs)
    ensures Truncate(rs) == rs
  {
    if rs != [] {
      TruncateNarrow(rs[1..]);
      assert rs == [rs[0]] + rs[1..];
    }
  }

  lemma {:induction false} RangeSize(rs: seq<Range>, i: nat)
    requires i < |rs|
    ensures rs[i].count < Size(rs)
  {
    if i > 0 {
      RangeSize(rs[1..], i - 1);
    }
  }

  lemma {:induction false} TruncatedIsAnchored(rs: seq<Range>)
    ensures Narrow(Truncate(rs)) && Anchored(Union(Truncate(rs)))
  {
    TruncateLength(rs);
    var ts := Truncate(rs);
    forall x | x in Union(ts) && x >= U32_LIMIT
      ensures x - 1 in Union(ts)
    {
      UnionMember(ts, x);
      var i :| 0 <= i < |ts| && x in ts[i].Span();
      assert x - 1 in ts[i].Span();
      UnionMember(ts, x - 1);
    }
  }

  /** A well-formed header and name are read as written, and the rest as ranges. */
  lemma FromDataFields(header: byte, name: seq<byte>, rest: seq<byte>)
    requires |name| <= 31 && ValidUtf8(name)
    requires header % 0x20 == |name| && header / 0x20 == 1
    ensures FromData([header] + name + rest)
      == match ParseRanges([header] + name + rest, 1 + |name|, 0, {})
         case Err(e) => Err(e)
         case Ok(w) => Ok(Contents(name, w))
  {
    hide ParseRanges, ValidUtf8;
    var data := [header] + name + rest;
    assert data[0] == header;
    assert data[1..1 + |name|] == name;
  }

  lemma ReadBackRanges(header: byte, name: seq<byte>, ts: seq<Range>)
    requires |name| <= 31 && ValidUtf8(name)
    requires header % 0x20 == |name| && header / 0x20 == 1
    requires Narrow(ts)
    ensures FromData([header] + name + EncodeRanges(ts))
      == if Size(ts) <= MAX_TOTAL_WALLETS then Ok(Contents(name, Union(ts))) else Err(Tlv)
  {
    hide FromData, ParseRanges, ValidUtf8, EncodeRanges, Union, Size;
    FromDataFields(header, name, EncodeRanges(ts));
    ParseWritten([header] + name, ts, 0, {});
    assert {} + Union(ts) == Union(ts);
  }

  /** With a name that fits, reading back is parsing the written ranges. */
  lemma ReadBack(m: Contents)
    requires ValidUtf8(m.name) && |m.name| <= 31
    ensures var ts := Truncate(CanonicalRuns(m.wallets));
      FromData(ToBytes(m))
      == if Size(ts) <= MAX_TOTAL_WALLETS then Ok(Contents(m.name, Union(ts))) else Err(Tlv)
  {
    hide FromData, ValidUtf8, EncodeRanges, Truncate, Union, Size, Anchored, CanonicalRuns, Header;
    HeaderFields(|m.name|);
    TruncatedIsAnchored(CanonicalRuns(m.wallets));
    ReadBackRanges(Header(|m.name|), m.name, Truncate(CanonicalRuns(m.wallets)));
  }

  /** The header has too few bits for a longer name. */
  lemma LongNameLost(m: Contents)
    requires |m.name| > 31
    ensures FromData(ToBytes(m)) != Ok(m)
  {
    hide ParseRanges, EncodeRanges, Truncate, ValidUtf8, CanonicalRuns;
    HeaderFields(|m.name|);
  }

  /** Exactly the contents that come back from being written: a name of at most 31 bytes, at
      most 100,000 ids, and no id above the 32-bit range without its predecessor. The header
      has five bits for the name length, and the start of a run is cut to 32 bits. */
  lemma RoundTrip(m: Contents)
    requires ValidUtf8(m.name)
    ensures FromData(ToBytes(m)) == Ok(m)
      <==> |m.name| <= 31 && |m.wallets| <= MAX_TOTAL_WALLETS && Anchored(m.wallets)
  {
    hide FromData, Truncate, Union, Size, Normal, EncodeRanges, CanonicalRuns, ValidUtf8, Header;
    var rs := CanonicalRuns(m.wallets);
    if |m.name| <= 31 {
      ReadBack(m);
      if |m.wallets| <= MAX_TOTAL_WALLETS && Anchored(m.wallets) {
        AnchoredRuns(m.wallets);
        TruncateNarrow(rs);
      }
      TruncatedIsAnchored(rs);
      UnionSize(Truncate(rs));
    } else {
      LongNameLost(m);
    }
  }

  /** Reading a blob and writing it again loses nothing, whatever its ids. */
  lemma CanonicalisationIsLossless(data: seq<byte>)
    requires FromData(data).Ok?
    ensures FromData(ToBytes(FromData(data).value)) == FromData(data)
  {
    var m := FromData(data).value;
    ParsedIsAnchored(data, 1 + |m.name|, 0, {});
    RoundTrip(m);
  }

  /** Two accepted blobs are rewritten to the same bytes exactly when they mean the same. */
  lemma CanonicalFormDecidesEquality(d1: seq<byte>, d2: seq<byte>)
    requires FromData(d1).Ok? && FromData(d2).Ok?
    ensures ToBytes(FromData(d1).value) == ToBytes(FromData(d2).value) <==> FromData(d1) == FromData(d2)
  {
    CanonicalisationIsLossless(d1);
    CanonicalisationIsLossless(d2);
  }

  // --- Exactly what is accepted ---------------------------------------------

  /** Bytes that spell a list of ranges: a field for each start and a field for each count, of
      any length that is allowed. */
  ghost predicate Spells(bytes: seq<byte>, rs: seq<Range>)
    decreases |rs|
  {
    if rs == [] then bytes == []
    else exists i: nat, j: nat :: SpellsFirst(bytes, i, j, rs[0]) && Spells(bytes[j..], rs[1..])
  }

  predicate SpellsFirst(bytes: seq<byte>, i: nat, j: nat, r: Range) {
    i < j <= |bytes| && IsField(bytes[..i], r.start) && IsField(bytes[i..j], r.count)
  }

  /** A range is read where its two fields stand. */
  lemma ReadRangeExactly(data: seq<byte>, off: nat, i: nat, j: nat, r: Range)
    requires off <= |data|
    ensures SpellsFirst(data[off..], i, j, r) <==>
      0 < i && ReadNum(data, off) == Ok((r.start, off + i)) && ReadNum(data, off + i) == Ok((r.count, off + j))
  {
    hide ReadNum, IsField;
    var rest := data[off..];
    NumExactly(data, off, r.start, off + i);
    NumExactly(data, off + i, r.count, off + j);
    if i < j <= |rest| {
      assert rest[..i] == data[off..off + i] && rest[i..j] == data[off + i..off + j];
    }
    NoEmptyField(r.start);
  }

  lemma NumExactly(data: seq<byte>, off: nat, n: nat, next: nat)
    ensures ReadNum(data, off) == Ok((n, next)) <==> off < next <= |data| && IsField(data[off..next], n)
  {
    hide BigEndian, IsField;
    DecodedExactly(data, off, n, next);
    if DecodeLength(data, off).Ok? {
      DecodedFieldIsBounded(data, off);
    }
  }

  lemma NoEmptyField(n: nat)
    ensures !IsField([], n)
  {
  }

  lemma {:induction false} ParsedIsSpelled(data: seq<byte>, off: nat, total: nat, w: set<nat>) returns (rs: seq<Range>)
    requires off <= |data| && ParseRanges(data, off, total, w).Ok? && total <= MAX_TOTAL_WALLETS
    ensures Spells(data[off..], rs) && total + Size(rs) <= MAX_TOTAL_WALLETS
    ensures ParseRanges(data, off, total, w) == Ok(w + Union(rs))
    decreases |data| - off
  {
    hide ReadNum, IsField;
    if off == |data| {
      rs := [];
      assert w + Union(rs) == w;
    } else {
      var (start, mid) := ReadNum(data, off).value;
      var (count, next) := ReadNum(data, mid).value;
      var r := Range(start, count);
      var rest := ParsedIsSpelled(data, next, total + count + 1, w + r.Span());
      rs := [r] + rest;
      ReadRangeExactly(data, off, mid - off, next - off, r);
      assert data[off..][next - off..] == data[next..] && rs[1..] == rest;
      assert w + r.Span() + Union(rest) == w + Union(rs);
    }
  }

  lemma {:induction false} SpelledIsParsed(data: seq<byte>, off: nat, total: nat, w: set<nat>, rs: seq<Range>)
    requires off <= |data| && Spells(data[off..], rs) && total + Size(rs) <= MAX_TOTAL_WALLETS
    ensures ParseRanges(data, off, total, w) == Ok(w + Union(rs))
    decreases |rs|
  {
    hide ReadNum, IsField;
    assert rs == [] ==> w + Union(rs) == w;
    if rs != [] {
      var i: nat, j: nat :| SpellsFirst(data[off..], i, j, rs[0]) && Spells(data[off..][j..], rs[1..]);
      ReadRangeExactly(data, off, i, j, rs[0]);
      assert data[off..][j..] == data[off + j..];
      SpelledIsParsed(data, off + j, total + rs[0].count + 1, w + rs[0].Span(), rs[1..]);
      ParseStep(data, off, off + i, off + j, rs[0], total, w);
      assert w + rs[0].Span() + Union(rs[1..]) == w + Union(rs);
    }
  }

  /** A blob that means some contents: version 1 over the length of the name in its first byte,
      the name, which encodes Unicode scalar values, and ranges whose union are the ids, at most
      100,000 of them counted with repetitions. */
  ghost predicate Means(data: seq<byte>, m: Contents, scalars: seq<Scalar>, rs: seq<Range>) {
    && m.name == EncodeScalars(scalars) && |m.name| <= 31
    && |data| >= 1 + |m.name| && data[0] == 0x20 + |m.name| && data[1..1 + |m.name|] == m.name
    && Spells(data[1 + |m.name|..], rs) && Size(rs) <= 100_000 && m.wallets == Union(rs)
  }

  /** Exactly when a blob is accepted, and as what. Everything else gives one error. */
  lemma AcceptedExactly(data: seq<byte>, m: Contents)
    ensures FromData(data) == Ok(m) <==> exists scalars, rs :: Means(data, m, scalars, rs)
    ensures FromData(data).Err? ==> FromData(data) == Err(Tlv)
  {
    hide FromData, Means;
    FailsWithTlv(data);
    if FromData(data) == Ok(m) {
      var scalars, rs := AcceptedMeans(data, m);
    }
    if scalars: seq<Scalar>, rs: seq<Range> :| Means(data, m, scalars, rs) {
      MeansAccepted(data, m, scalars, rs);
    }
  }

  lemma AcceptedMeans(data: seq<byte>, m: Contents) returns (scalars: seq<Scalar>, rs: seq<Range>)
    requires FromData(data) == Ok(m)
    ensures Means(data, m, scalars, rs)
  {
    hide ValidUtf8, ParseRanges, Spells, Size, Union, EncodeScalars;
    scalars := DecodeUtf8(m.name);
    rs := ParsedIsSpelled(data, 1 + data[0] as int % 0x20, 0, {});
    assert {} + Union(rs) == Union(rs);
  }

  lemma MeansAccepted(data: seq<byte>, m: Contents, scalars: seq<Scalar>, rs: seq<Range>)
    requires Means(data, m, scalars, rs)
    ensures FromData(data) == Ok(m)
  {
    hide ValidUtf8, ParseRanges, Spells, Size, Union, EncodeScalars;
    EncodedIsUtf8(scalars);
    SpelledIsParsed(data, 1 + |m.name|, 0, {}, rs);
    assert {} + Union(rs) == Union(rs);
    HeaderOf(|m.name|);
  }

  lemma HeaderOf(n: nat)
    requires n <= 31
    ensures (0x20 + n) % 0x20 == n && (0x20 + n) / 0x20 == 1
  {
  }

  lemma FailsWithTlv(data: seq<byte>)
    ensures FromData(data).Err? ==> FromData(data) == Err(Tlv)
  {
    hide ValidUtf8, ParseRanges;
    if data != [] {
      ErrorsAreTlv(data, 1 + data[0] as int % 0x20, 0, {});
    }
  }

  lemma {:induction false} ErrorsAreTlv(data: seq<byte>, off: nat, total: nat, w: set<nat>)
    ensures var r := ParseRanges(data, off, total, w); r.Err? ==> r == Err(Tlv)
    decreases |data| - off
  {
    DecodeErrors(data, off);
    hide DecodeLength;
    if ReadNum(data, off).Ok? {
      var (start, mid) := ReadNum(data, off).value;
      DecodeErrors(data, mid);
      if ReadNum(data, mid).Ok? {
        var (count, next) := ReadNum(data, mid).value;
        ErrorsAreTlv(data, next, total + count + 1, w + Range(start, count).Span());
      }
    }
  }

  lemma DecodeErrors(data: seq<byte>, off: nat)
    ensures ReadNum(data, off).Err? ==> ReadNum(data, off) == Err(Tlv)
  {
  }
}
