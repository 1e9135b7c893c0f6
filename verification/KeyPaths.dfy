/** BIP32 derivation paths: their text and their bytes for card commands. */
module KeyPaths {
  import opened Bytes

  const SOURCE_MASTER: byte := 0x00
  const SOURCE_PARENT: byte := 0x40
  const SOURCE_CURRENT: byte := 0x80
  const MAX_COMPONENTS := 10
  const HARDENED := 0x8000_0000

  datatype KeyPath = KeyPath(source: byte, data: seq<byte>)

  // --- Text -----------------------------------------------------------------

  /** The pieces between slashes; a text without one is a single piece. */
  function Split(s: string): (pieces: seq<string>)
    ensures pieces != []
  {
    if s == "" then [""]
    else if s[0] == '/' then [""] + Split(s[1..])
    else
      var rest := Split(s[1..]);
      [[s[0]] + rest[0]] + rest[1..]
  }

  /** The Unicode property White_Space. */
  predicate IsWhitespace(c: char) {
    || '\U{0009}' <= c <= '\U{000D}' || c == ' ' || c == '\U{0085}' || c == '\U{00A0}' || c == '\U{1680}'
    || '\U{2000}' <= c <= '\U{200A}' || c == '\U{2028}' || c == '\U{2029}' || c == '\U{202F}'
    || c == '\U{205F}' || c == '\U{3000}'
  }

  function Trim(s: string): string {
    if s == "" then ""
    else if IsWhitespace(s[0]) then Trim(s[1..])
    else if IsWhitespace(s[|s| - 1]) then Trim(s[..|s| - 1])
    else s
  }

  predicate IsDigit(c: char) { '0' <= c <= '9' }

  predicate AllDigits(s: string) {
    forall i :: 0 <= i < |s| ==> IsDigit(s[i])
  }

  function DecimalValue(s: string): nat
    requires AllDigits(s)
  {
    if s == "" then 0
    else 10 * DecimalValue(s[..|s| - 1]) + (s[|s| - 1] as int - '0' as int)
  }

  function Decimal(n: nat): (s: string)
    ensures s != ""
  {
    var digit := ('0' as int + n % 10) as char;
    if n < 10 then [digit] else Decimal(n / 10) + [digit]
  }

  /** An unsigned 32-bit number: an optional plus sign, then digits, without overflow. */
  function ParseU32(s: string): Option<nat> {
    var digits := if |s| > 1 && s[0] == '+' then s[1..] else s;
    if digits == "" || !AllDigits(digits) || DecimalValue(digits) > 0xFFFF_FFFF then None
    else Some(DecimalValue(digits))
  }

  /** A component: a number below 2^31, with a trailing apostrophe if it is hardened. */
  function ParseComponent(s: string): Result<nat> {
    var hardened := s != "" && s[|s| - 1] == '\'';
    var num := if hardened then s[..|s| - 1] else s;
    if num != "" && (num[0] == '+' || num[0] == '-') then Err(InvalidArgument)
    else
      match ParseU32(num)
      case None => Err(InvalidArgument)
      case Some(n) =>
        if n > 0x7FFF_FFFF then Err(InvalidArgument) else Ok(if hardened then HARDENED + n else n)
  }

  /** Four big-endian bytes for each component. */
  function ParseComponents(components: seq<string>): Result<seq<byte>> {
    if components == [] then Ok([])
    else
      match ParseComponent(components[0])
      case Err(e) => Err(e)
      case Ok(n) =>
        match ParseComponents(components[1..])
        case Err(e) => Err(e)
        case Ok(rest) => Ok(BytesOf(n, 4) + rest)
  }

  function SourceNamed(first: string): Option<byte> {
    if first == "m" then Some(SOURCE_MASTER)
    else if first == ".." then Some(SOURCE_PARENT)
    else if first == "." then Some(SOURCE_CURRENT)
    else None
  }

  /** A path without a source starts at the current key, with its first component trimmed. */
  function ParsePath(path: string): Result<KeyPath> {
    var pieces := Split(path);
    var first := Trim(pieces[0]);
    if first == "" then Err(InvalidArgument)
    else
      var named := SourceNamed(first);
      var components := if named.Some? then pieces[1..] else [first] + pieces[1..];
      if |components| > MAX_COMPONENTS then Err(InvalidArgument)
      else
        match ParseComponents(components)
        case Err(e) => Err(e)
        case Ok(data) => Ok(KeyPath(if named.Some? then named.value else SOURCE_CURRENT, data))
  }

  method FromString(path: string) returns (r: Result<KeyPath>)
    ensures r == ParsePath(path)
  {
    var components := Split(path);
    var first := Trim(components[0]);
    components := components[1..];
    if first == "" {
      return Err(InvalidArgument);
    }
    var source: byte;
    if first == "m" {
      source := SOURCE_MASTER;
    } else if first == ".." {
      source := SOURCE_PARENT;
    } else if first == "." {
      source := SOURCE_CURRENT;
    } else {
      components := [first] + components;
      source := SOURCE_CURRENT;
    }
    if |components| > MAX_COMPONENTS {
      return Err(InvalidArgument);
    }
    var data := ParseComponents(components);
    if data.Err? {
      return Err(data.error);
    }
    return Ok(KeyPath(source, data.value));
  }

  // --- Printing -------------------------------------------------------------

  /** An unknown source prints like the current key. */
  function SourceText(source: byte): string {
    if source == SOURCE_MASTER then "m" else if source == SOURCE_PARENT then ".." else "."
  }

  function ComponentText(chunk: seq<byte>): string
    requires |chunk| == 4
  {
    Decimal(BigEndian([chunk[0] % 0x80] + chunk[1..])) + if chunk[0] >= 0x80 then "'" else ""
  }

  /** The components of all whole groups of four bytes. */
  function ComponentTexts(data: seq<byte>): (texts: seq<string>)
    ensures |texts| == |data| / 4
  {
    if |data| < 4 then [] else [ComponentText(data[..4])] + ComponentTexts(data[4..])
  }

  /** Each text after a slash. */
  function Slashed(texts: seq<string>): string {
    if texts == [] then "" else "/" + texts[0] + Slashed(texts[1..])
  }

  function Display(p: KeyPath): string {
    SourceText(p.source) + Slashed(ComponentTexts(p.data))
  }

  lemma SlashedNone()
    ensures Slashed([]) == ""
  {
  }

  lemma {:induction false} SlashedSnoc(texts: seq<string>, t: string)
    ensures Slashed(texts + [t]) == Slashed(texts) + "/" + t
  {
    if texts == [] {
      assert [t][1..] == [];
      assert "" + "/" + t == "/" + t;
    } else {
      assert (texts + [t])[1..] == texts[1..] + [t];
      SlashedSnoc(texts[1..], t);
    }
  }

  lemma {:induction false} ComponentTextAt(data: seq<byte>, i: nat)
    requires i < |data| / 4
    ensures ComponentTexts(data)[i] == ComponentText(data[4 * i..4 * i + 4])
  {
    if i > 0 {
      ComponentTextAt(data[4..], i - 1);
      assert data[4..][4 * (i - 1)..4 * (i - 1) + 4] == data[4 * i..4 * i + 4];
    }
  }

  method ToString(p: KeyPath) returns (s: string)
    ensures s == Display(p)
  {
    hide ComponentTexts, Decimal, BigEndian, Slashed;
    s := SourceText(p.source);
    ghost var texts := ComponentTexts(p.data);
    SlashedNone();
    for i := 0 to |p.data| / 4
      invariant s == SourceText(p.source) + Slashed(texts[..i])
    {
      var chunk := p.data[4 * i..4 * i + 4];
      var num := BigEndian([chunk[0] % 0x80] + chunk[1..]);
      ComponentTextAt(p.data, i);
      SlashedSnoc(texts[..i], texts[i]);
      assert texts[..i] + [texts[i]] == texts[..i + 1];
      ghost var before := s;
      s := s + "/" + Decimal(num);
      if chunk[0] >= 0x80 {
        s := s + "'";
      }
      assert s == before + ("/" + texts[i]);
    }
    assert texts[..|texts|] == texts;
  }

  // --- Printing and parsing -------------------------------------------------

  predicate NoSlash(s: string) {
    '/' !in s
  }

  lemma {:induction false} SplitPlain(s: string)
    requires NoSlash(s)
    ensures Split(s) == [s]
  {
    if s != "" {
      assert NoSlash(s[1..]) && s[0] in s;
      SplitPlain(s[1..]);
      assert [s[0]] + s[1..] == s;
    }
  }

  lemma {:induction false} SplitFirst(s: string, rest: string)
    requires NoSlash(s)
    ensures Split(s + "/" + rest) == [s] + Split(rest)
  {
    var text := s + "/" + rest;
    if s == "" {
      assert text == "/" + rest && text[1..] == rest;
    } else {
      assert text[0] == s[0] && s[0] in s && NoSlash(s[1..]);
      assert text[1..] == s[1..] + "/" + rest;
      SplitFirst(s[1..], rest);
      assert [s[0]] + s[1..] == s;
    }
  }

  lemma SlashedCons(texts: seq<string>)
    requires texts != []
    ensures Slashed(texts) == "/" + (texts[0] + Slashed(texts[1..]))
  {
  }

  /** Splitting undoes joining texts without slashes. */
  lemma {:induction false} SplitSlashed(s: string, texts: seq<string>)
    requires NoSlash(s) && forall i :: 0 <= i < |texts| ==> NoSlash(texts[i])
    ensures Split(s + Slashed(texts)) == [s] + texts
    decreases |texts|
  {
    if texts == [] {
      assert s + "" == s;
      SplitPlain(s);
    } else {
      hide Split, NoSlash, Slashed;
      SlashedCons(texts);
      var rest := texts[0] + Slashed(texts[1..]);
      assert s + Slashed(texts) == s + "/" + rest;
      SplitFirst(s, rest);
      SplitSlashed(texts[0], texts[1..]);
    }
  }

  lemma {:induction false} DecimalDigits(n: nat)
    ensures AllDigits(Decimal(n)) && DecimalValue(Decimal(n)) == n
    ensures n > 0 ==> Decimal(n)[0] != '0'
    ensures n == 0 ==> Decimal(n) == "0"
  {
    var digit := ('0' as int + n % 10) as char;
    if n < 10 {
      assert Decimal(n)[..0] == "";
    } else {
      DecimalDigits(n / 10);
      assert Decimal(n)[..|Decimal(n)| - 1] == Decimal(n / 10);
    }
  }

  lemma ChunkValue(chunk: seq<byte>)
    requires |chunk| == 4
    ensures var low := BigEndian([chunk[0] % 0x80] + chunk[1..]);
      && low < HARDENED
      && BigEndian(chunk) == if chunk[0] >= 0x80 then HARDENED + low else low
  {
    hide BigEndian;
    BigEndianCons(chunk[0], chunk[1..]);
    BigEndianCons(chunk[0] % 0x80, chunk[1..]);
    BigEndianBound(chunk[1..]);
    Pow256Values();
    assert chunk == [chunk[0]] + chunk[1..];
  }

  /** Digits parse to their value, with an apostrophe as a hardened component. */
  lemma DigitsParse(digits: string)
    requires digits != "" && AllDigits(digits) && DecimalValue(digits) < HARDENED
    ensures NoSlash(digits) && NoSlash(digits + "'")
    ensures ParseComponent(digits) == Ok(DecimalValue(digits))
    ensures ParseComponent(digits + "'") == Ok(HARDENED + DecimalValue(digits))
  {
    hide DecimalValue;
    assert IsDigit(digits[0]) && IsDigit(digits[|digits| - 1]);
    var marked := digits + "'";
    assert marked[..|marked| - 1] == digits;
  }

  /** A printed component has no slash and parses to its own four bytes. */
  lemma ComponentRoundTrip(chunk: seq<byte>)
    requires |chunk| == 4
    ensures NoSlash(ComponentText(chunk))
    ensures ParseComponent(ComponentText(chunk)) == Ok(BigEndian(chunk))
    ensures BytesOf(BigEndian(chunk), 4) == chunk
  {
    hide BigEndian, BytesOf, Decimal, DecimalValue, AllDigits, NoSlash, ParseComponent;
    ChunkValue(chunk);
    BytesOfBigEndian(chunk);
    var low := BigEndian([chunk[0] % 0x80] + chunk[1..]);
    DecimalDigits(low);
    DigitsParse(Decimal(low));
    assert Decimal(low) + "" == Decimal(low);
  }

  lemma {:induction false} ComponentsRoundTrip(data: seq<byte>)
    ensures var texts := ComponentTexts(data);
      && (forall i :: 0 <= i < |texts| ==> NoSlash(texts[i]))
      && ParseComponents(texts) == Ok(data[..4 * (|data| / 4)])
  {
    hide ComponentText, ParseComponent, BytesOf;
    if |data| >= 4 {
      ComponentRoundTrip(data[..4]);
      ComponentsRoundTrip(data[4..]);
      var texts := ComponentTexts(data);
      assert texts[1..] == ComponentTexts(data[4..]);
      assert data[..4] + data[4..][..4 * (|data[4..]| / 4)] == data[..4 * (|data| / 4)];
    }
  }

  /** What parsing a printed path gives: at most ten components, whole groups of four bytes,
      and one of the three sources. */
  lemma ParsePrinted(p: KeyPath)
    ensures ParsePath(Display(p))
      == if |p.data| / 4 > MAX_COMPONENTS then Err(InvalidArgument)
         else Ok(KeyPath(if p.source in {SOURCE_MASTER, SOURCE_PARENT} then p.source else SOURCE_CURRENT,
                         p.data[..4 * (|p.data| / 4)]))
  {
    hide ComponentTexts, ParseComponents, Split, Slashed;
    ComponentsRoundTrip(p.data);
    var texts := ComponentTexts(p.data);
    SplitSlashed(SourceText(p.source), texts);
    assert ([SourceText(p.source)] + texts)[1..] == texts;
  }

  /** Exactly the paths that survive printing and parsing: one of the three sources, and whole
      components, at most ten. */
  lemma PathRoundTrip(p: KeyPath)
    ensures ParsePath(Display(p)) == Ok(p)
      <==> p.source in {SOURCE_MASTER, SOURCE_PARENT, SOURCE_CURRENT} && |p.data| % 4 == 0 && |p.data| <= 40
  {
    hide ParsePath, Display;
    ParsePrinted(p);
    if |p.data| % 4 == 0 {
      assert p.data[..4 * (|p.data| / 4)] == p.data;
    }
  }

  lemma {:induction false} ParsedLength(components: seq<string>)
    requires ParseComponents(components).Ok?
    ensures |ParseComponents(components).value| == 4 * |components|
  {
    hide ParseComponent, BytesOf;
    if components != [] {
      ParsedLength(components[1..]);
    }
  }

  lemma SourceOfParsed(path: string)
    requires ParsePath(path).Ok?
    ensures ParsePath(path).value.source in {SOURCE_MASTER, SOURCE_PARENT, SOURCE_CURRENT}
  {
    hide ParseComponents, Split, Trim;
  }

  /** Every accepted text, with or without a source, with leading zeros or hardened marks, is
      printed to a text that parses to the same path. */
  lemma AcceptedTextRoundTrip(path: string)
    requires ParsePath(path).Ok?
    ensures ParsePath(Display(ParsePath(path).value)) == ParsePath(path)
  {
    hide Split, Trim, ParseComponent, BytesOf, Display, SourceNamed;
    var pieces := Split(path);
    var first := Trim(pieces[0]);
    ParsedLength(if SourceNamed(first).Some? then pieces[1..] else [first] + pieces[1..]);
    SourceOfParsed(path);
    PathRoundTrip(ParsePath(path).value);
  }

  // --- Exactly what is accepted ---------------------------------------------

  predicate NoneHasSlash(pieces: seq<string>) {
    forall i :: 0 <= i < |pieces| ==> NoSlash(pieces[i])
  }

  /** The pieces are the only texts without slashes that are joined by slashes to the text. */
  lemma SplitExactly(s: string, pieces: seq<string>)
    requires pieces != []
    ensures Split(s) == pieces <==> NoneHasSlash(pieces) && s == pieces[0] + Slashed(pieces[1..])
  {
    if NoneHasSlash(pieces) && s == pieces[0] + Slashed(pieces[1..]) {
      SplitSlashed(pieces[0], pieces[1..]);
      assert [pieces[0]] + pieces[1..] == pieces;
    }
    SplitJoins(s);
  }

  lemma {:induction false} SplitJoins(s: string)
    ensures NoneHasSlash(Split(s)) && s == Split(s)[0] + Slashed(Split(s)[1..])
  {
    if s != "" {
      SplitJoins(s[1..]);
      var rest := Split(s[1..]);
      if s[0] == '/' {
        SlashJoins(rest);
      } else {
        LetterJoins(s[0], rest);
      }
      assert s == [s[0]] + s[1..];
    }
  }

  lemma SlashJoins(rest: seq<string>)
    requires rest != [] && NoneHasSlash(rest)
    ensures NoneHasSlash([""] + rest)
    ensures var pieces := [""] + rest; pieces[0] + Slashed(pieces[1..]) == "/" + (rest[0] + Slashed(rest[1..]))
  {
    assert ([""] + rest)[1..] == rest;
    SlashedCons(rest);
  }

  lemma LetterJoins(c: char, rest: seq<string>)
    requires rest != [] && NoneHasSlash(rest) && c != '/'
    ensures var pieces := [[c] + rest[0]] + rest[1..];
      NoneHasSlash(pieces) && pieces[0] + Slashed(pieces[1..]) == [c] + (rest[0] + Slashed(rest[1..]))
  {
    var pieces := [[c] + rest[0]] + rest[1..];
    assert pieces[1..] == rest[1..];
    assert NoSlash(rest[0]);
    forall i | 0 <= i < |pieces|
      ensures NoSlash(pieces[i])
    {
      if i > 0 {
        assert pieces[i] == rest[i];
      }
    }
  }

  predicate Blank(s: string) {
    forall i :: 0 <= i < |s| ==> IsWhitespace(s[i])
  }

  /** A text that neither begins nor ends with white space. */
  predicate Tight(s: string) {
    s == "" || (!IsWhitespace(s[0]) && !IsWhitespace(s[|s| - 1]))
  }

  /** Trimming takes white space off both ends, as much as there is. */
  lemma {:induction false} TrimExactly(s: string) returns (lead: string, trail: string)
    ensures s == lead + Trim(s) + trail && Blank(lead) && Blank(trail) && Tight(Trim(s))
    decreases |s|
  {
    TrimSteps(s);
    hide Trim, Tight, IsWhitespace, Blank;
    if Tight(s) {
      lead, trail := "", "";
    } else if IsWhitespace(s[0]) {
      var rest, t := TrimExactly(s[1..]);
      lead, trail := [s[0]] + rest, t;
      BlankJoins(s[0], rest);
      assert s == [s[0]] + (rest + Trim(s) + trail);
    } else {
      var l, rest := TrimExactly(s[..|s| - 1]);
      lead, trail := l, rest + [s[|s| - 1]];
      BlankJoins(s[|s| - 1], rest);
      assert s == lead + Trim(s) + rest + [s[|s| - 1]];
    }
  }

  lemma TrimSteps(s: string)
    ensures Tight(s) ==> Trim(s) == s
    ensures Blank("")
    ensures !Tight(s) ==>
      && s != ""
      && (if IsWhitespace(s[0]) then Trim(s) == Trim(s[1..])
          else IsWhitespace(s[|s| - 1]) && Trim(s) == Trim(s[..|s| - 1]))
  {
    hide IsWhitespace;
  }

  lemma BlankJoins(c: char, s: string)
    requires IsWhitespace(c) && Blank(s)
    ensures Blank([c] + s) && Blank(s + [c])
  {
    hide IsWhitespace;
  }

  /** Decimal digits, and an apostrophe if the component is hardened: digits below 2^31 stand for
      their number, and hardened for 2^31 more. */
  ghost predicate IsComponent(s: string, n: nat) {
    exists digits: string :: digits != "" && AllDigits(digits) && DecimalValue(digits) <= 0x7FFF_FFFF
      && ((s == digits && n == DecimalValue(digits)) || (s == digits + "'" && n == 0x8000_0000 + DecimalValue(digits)))
  }

  lemma ComponentExactly(s: string, n: nat)
    ensures ParseComponent(s) == Ok(n) <==> IsComponent(s, n)
  {
    hide DecimalValue;
    if ParseComponent(s) == Ok(n) {
      var hardened := s != "" && s[|s| - 1] == '\'';
      var num := if hardened then s[..|s| - 1] else s;
      assert num != "" && AllDigits(num);
      assert s == if hardened then num + "'" else num;
    }
    if IsComponent(s, n) {
      var digits: string :| digits != "" && AllDigits(digits) && DecimalValue(digits) <= 0x7FFF_FFFF
        && ((s == digits && n == DecimalValue(digits)) || (s == digits + "'" && n == 0x8000_0000 + DecimalValue(digits)));
      DigitsParse(digits);
    }
  }

  /** The components of a path as texts, and its data: four big-endian bytes for each. */
  ghost predicate Components(texts: seq<string>, data: seq<byte>) {
    |data| == 4 * |texts| && forall i :: 0 <= i < |texts| ==> IsComponent(texts[i], BigEndian(data[4 * i..4 * i + 4]))
  }

  lemma {:induction false} ComponentsExactly(texts: seq<string>, data: seq<byte>)
    ensures ParseComponents(texts) == Ok(data) <==> Components(texts, data)
  {
    hide ParseComponent, IsComponent, BytesOf, BigEndian;
    if texts != [] {
      var rest := if |data| >= 4 then data[4..] else [];
      ComponentsExactly(texts[1..], rest);
      if |data| >= 4 {
        ComponentExactly(texts[0], BigEndian(data[..4]));
        BytesOfBigEndian(data[..4]);
        ComponentsTail(texts, data);
        assert data == data[..4] + rest;
      }
      if ParseComponents(texts) == Ok(data) {
        var n := ParseComponent(texts[0]).value;
        ComponentBelow(texts[0]);
        BytesOfValue(n, 4);
        Pow256Values();
        assert BytesOf(n, 4) + ParseComponents(texts[1..]).value == data;
        assert data[..4] == BytesOf(n, 4) && data[4..] == ParseComponents(texts[1..]).value;
      }
    }
  }

  lemma ComponentBelow(s: string)
    ensures ParseComponent(s).Ok? ==> ParseComponent(s).value < 0x1_0000_0000
  {
  }

  lemma ComponentsTail(texts: seq<string>, data: seq<byte>)
    requires texts != [] && |data| >= 4
    ensures Components(texts, data) <==> IsComponent(texts[0], BigEndian(data[..4])) && Components(texts[1..], data[4..])
  {
    hide IsComponent, BigEndian;
    forall i | 0 <= i < |texts| - 1 && |data| == 4 * |texts|
      ensures data[4..][4 * i..4 * i + 4] == data[4 * (i + 1)..4 * (i + 1) + 4]
    {
    }
    if Components(texts, data) {
      forall i | 0 <= i < |texts| - 1
        ensures IsComponent(texts[1..][i], BigEndian(data[4..][4 * i..4 * i + 4]))
      {
        assert IsComponent(texts[i + 1], BigEndian(data[4 * (i + 1)..4 * (i + 1) + 4]));
      }
    }
    if IsComponent(texts[0], BigEndian(data[..4])) && Components(texts[1..], data[4..]) {
      forall i | 0 <= i < |texts|
        ensures IsComponent(texts[i], BigEndian(data[4 * i..4 * i + 4]))
      {
        if i > 0 {
          assert IsComponent(texts[1..][i - 1], BigEndian(data[4..][4 * (i - 1)..4 * (i - 1) + 4]));
        }
      }
    }
  }

  /** What a text denotes, by its pieces: a source before its components, or components alone,
      which start at the current key; the first piece counts without the white space around it. */
  ghost predicate Denotes(path: string, p: KeyPath) {
    var pieces := Split(path);
    var first, others := Trim(pieces[0]), pieces[1..];
    match first
    case "m" => p.source == 0x00 && |others| <= 10 && Components(others, p.data)
    case ".." => p.source == 0x40 && |others| <= 10 && Components(others, p.data)
    case "." => p.source == 0x80 && |others| <= 10 && Components(others, p.data)
    case _ => p.source == 0x80 && |others| <= 9 && Components([first] + others, p.data)
  }

  /** Exactly which texts are accepted, and as what; every other is refused. */
  lemma PathExactly(path: string, p: KeyPath)
    ensures ParsePath(path) == Ok(p) <==> Denotes(path, p)
  {
    hide Split, Trim, ParseComponents, Components;
    var pieces := Split(path);
    var first := Trim(pieces[0]);
    ComponentsExactly(pieces[1..], p.data);
    ComponentsExactly([first] + pieces[1..], p.data);
    if first == "" {
      EmptyIsNone([first] + pieces[1..], p.data);
    }
  }

  /** An empty text is no component. */
  lemma EmptyIsNone(texts: seq<string>, data: seq<byte>)
    requires texts != [] && texts[0] == ""
    ensures !Components(texts, data)
  {
    hide BigEndian;
    if |data| == 4 * |texts| {
      NoEmptyComponent(BigEndian(data[4 * 0..4 * 0 + 4]));
    }
  }

  lemma NoEmptyComponent(n: nat)
    ensures !IsComponent("", n)
  {
  }
}
