/** The NDEF write end to end: through either secure channel, over a lossy line, into the
    memory of a card that stores each acknowledged chunk at four times its second parameter. */
module NdefLaws {
  import opened Bytes
  import opened Apdu
  import opened Link
  import opened Keycard
  import V1 = SecureChannelV1
  import V2 = SecureChannelV2
  import L1 = LockstepV1
  import L2 = LockstepV2
  import Cbc
  import R1 = ReplaysV1

  // --- The length prefix ----------------------------------------------------

  /** The payload itself is untouched. It ends up with its length in front, and prefixing
      twice is prefixing once, exactly for data that already carries its length or whose
      length fits the two bytes; longer data would be prefixed again and again. */
  lemma PrefixIdempotent(ndef: seq<byte>)
    ensures |Prefixed(ndef)| >= 2
    ensures Prefixed(ndef) == ndef || (|Prefixed(ndef)| == |ndef| + 2 && Prefixed(ndef)[2..] == ndef)
    ensures HasLengthPrefix(Prefixed(ndef)) <==> HasLengthPrefix(ndef) || |ndef| <= 0xFFFF
    ensures HasLengthPrefix(ndef) <==> |ndef| >= 2 && BigEndian(ndef[..2]) == |ndef| - 2
    ensures BigEndian(Prefixed(ndef)[..2]) == if HasLengthPrefix(ndef) then |ndef| - 2 else |ndef| % 0x1_0000
    ensures Prefixed(Prefixed(ndef)) == Prefixed(ndef) <==> HasLengthPrefix(ndef) || |ndef| <= 0xFFFF
  {
    hide BigEndian;
    var data := Prefixed(ndef);
    if |ndef| >= 2 {
      TwoBytes(ndef[..2]);
    }
    TwoBytes(data[..2]);
    if !HasLengthPrefix(ndef) {
      assert data[0] == |ndef| / 256 % 256 && data[1] == |ndef| % 256;
      LowWord(|ndef|);
      assert HasLengthPrefix(data) <==> |ndef| == |ndef| % 0x1_0000;
    }
  }

  lemma TwoBytes(s: seq<byte>)
    requires |s| == 2
    ensures BigEndian(s) == Word(s[0], s[1])
  {
    assert BigEndian(s[..1]) == s[0];
  }

  lemma LowWord(n: nat)
    ensures Word(n / 256 % 256, n % 256) == n % 0x1_0000
  {
    ModStep(n, 256);
  }

  // --- Chunk addresses ------------------------------------------------------

  /** The address a card derives from the second parameter. */
  function Address(off: nat): nat {
    Scale(OffsetParameter(off))
  }

  function Scale(p2: int): int {
    4 * p2
  }

  /** Addresses repeat after 1024 bytes. */
  lemma AddressWraps(off: nat)
    requires off % 4 == 0
    ensures Address(off) == off % 1024
  {
    var high, words := off / 0x1_0000, off % 0x1_0000 / 4;
    assert off == 0x1_0000 * high + 4 * words;
    ModUnique(off, 1024, 64 * high + words / 256, 4 * (words % 256));
  }

  /** Every chunk goes to its own offset exactly when there are at most 1100 bytes: the
      chunk at offset 1100 is the first that does not. */
  lemma ChunksAddressedExactly(n: nat)
    ensures (forall k: nat :: NDEF_MAX_CHUNK_SIZE * k < n ==> Address(NDEF_MAX_CHUNK_SIZE * k) == NDEF_MAX_CHUNK_SIZE * k)
      <==> n <= 1100
  {
    forall k: nat | k <= 4
      ensures Address(NDEF_MAX_CHUNK_SIZE * k) == NDEF_MAX_CHUNK_SIZE * k
    {
      AddressWraps(NDEF_MAX_CHUNK_SIZE * k);
    }
    AddressWraps(NDEF_MAX_CHUNK_SIZE * 5);
  }

  // --- The card's memory ----------------------------------------------------

  type App = seq<PlainCommand> -> seq<byte>

  predicate Acknowledges(app: App, inbox: seq<PlainCommand>) {
    var r := ParseResponse(app(inbox));
    r.Ok? && r.value.sw == SW_OK
  }

  predicate Inside(a: nat, start: nat, n: nat) {
    start <= a < start + n
  }

  function Write(mem: map<nat, byte>, start: nat, data: seq<byte>): map<nat, byte> {
    mem + map a: nat | start <= a < start + |data| && Inside(a, start, |data|) :: data[a - start]
  }

  predicate StoresNdef(cmd: PlainCommand) {
    cmd.ins == INS_STORE_DATA && cmd.p1 == STORE_DATA_P1_NDEF
  }

  /** The NDEF memory after the commands executed so far. */
  function Memory(app: App, inbox: seq<PlainCommand>): map<nat, byte> {
    if inbox == [] then map[]
    else
      var mem := Memory(app, inbox[..|inbox| - 1]);
      var last := inbox[|inbox| - 1];
      if StoresNdef(last) && Acknowledges(app, inbox) then Write(mem, Scale(last.p2), last.data) else mem
  }

  ghost predicate Holds(mem: map<nat, byte>, data: seq<byte>, n: nat)
    requires n <= |data|
  {
    forall a :: 0 <= a < n ==> a in mem && mem[a] == data[a]
  }

  /** The store commands of the chunks from one offset up to another. */
  function Chunks(data: seq<byte>, from: nat, to: nat): seq<PlainCommand>
    requires to <= |data|
    decreases |data| - from
  {
    if from >= to then []
    else [ChunkRequest(data, from).Plain()] + Chunks(data, from + |ChunkRequest(data, from).data|, to)
  }

  // --- Links of either version ----------------------------------------------

  datatype CardLink = Link1(l1: L1.CardLink) | Link2(l2: L2.CardLink) {
    function App(): App { if Link1? then l1.app else l2.app }
    function Net(): nat -> Net { if Link1? then l1.net else l2.net }
    function Respond(): Transport { if Link1? then L1.Respond(l1) else L2.Respond(l2) }
    function Inbox(sent: seq<ApduCommand>): seq<PlainCommand> {
      if Link1? then L1.CardAfter(l1, sent).inbox else L2.CardAfter(l2, sent).inbox
    }
    ghost predicate Sound(x: Suites) {
      if Link1? then l1.suite == x.v1 && Cbc.LawfulCipher(x.v1.cipher)
      else l2.suite == x.v2 && V2.LawfulAead(x.v2)
    }
  }

  ghost predicate InStep(l: CardLink, h: Host, sent: seq<ApduCommand>) {
    && h.Established()
    && if h.Host1? then l.Link1? && L1.InStep(l.l1, h.st1, sent) else l.Link2? && L2.InStep(l.l2, h.st2, sent)
  }

  /** In place of the reply to a request, the host accepts nothing but the card's own: nothing
      that is forged and, under version 1, no earlier reply. */
  ghost predicate TrueReplyNext(l: CardLink, h: Host, sent: seq<ApduCommand>, req: Request)
    requires h.Keyed()
  {
    match h
    case Host1(st) => l.Link1? ==> L1.TrueReplyNext(l.l1, st, sent, req)
    case Host2(st) => l.Link2? ==> L2.UnforgedNext(l.l2, st, sent, req)
  }

  /** A chunked write up to the first chunk that gets another reply: the state before it, the
      offset up to which chunks were acknowledged, and whether there is no such chunk. */
  datatype WriteRun = WriteRun(host: Host, sent: seq<ApduCommand>, acked: nat, whole: bool)

  ghost function TrueWriteRun(x: Suites, l: CardLink, h: Host, sent: seq<ApduCommand>, data: seq<byte>, off: nat)
    : (r: WriteRun)
    requires h.Keyed() && off < |data|
    ensures r.host.Keyed() && r.acked <= |data|
    decreases |data| - off
  {
    var req := ChunkRequest(data, off);
    if !TrueReplyNext(l, h, sent, req) then WriteRun(h, sent, off, false)
    else
      var (after, sent', r) := SendProtected(x, h, l.Respond(), sent, req);
      if !after.Open() || !IsOk(r) then WriteRun(after, sent', off, true)
      else if off + |req.data| == |data| then WriteRun(after, sent', |data|, true)
      else TrueWriteRun(x, l, after, sent', data, off + |req.data|)
  }

  /** An open host had the request executed and holds the card's own reply. */
  ghost predicate Answered(l: CardLink, h: Host, sent: seq<ApduCommand>, req: Request)
    requires h.Keyed()
  {
    match h
    case Host1(st) => l.Link1? && L1.Answered(l.l1, st, sent, req)
    case Host2(st) => l.Link2? && L2.Answered(l.l2, st, sent, req)
  }

  /** What both versions guarantee for a request of one chunk: 220 bytes fit a short APDU
      under either. On any line, the card's own replies are the only ones accepted exactly if
      an open host had the request executed and holds the card's reply; both are then in step
      and the host returns the application's answer. */
  lemma ChunkExchange(x: Suites, l: CardLink, h: Host, sent: seq<ApduCommand>, req: Request)
    requires l.Sound(x) && InStep(l, h, sent) && h.Keyed() && h.Open()
    requires |req.data| <= NDEF_MAX_CHUNK_SIZE
    ensures TrueReplyNext(l, h, sent, req) <==> Answered(l, h, sent, req)
    ensures
      var (after, sent', r) := SendProtected(x, h, l.Respond(), sent, req);
      var before, inbox := l.Inbox(sent), l.Inbox(sent');
      TrueReplyNext(l, h, sent, req) ==>
        && InStep(l, after, sent')
        && (inbox == before || inbox == before + [req.Plain()])
        && (after.Open() ==> inbox == before + [req.Plain()] && r == ParseResponse(l.App()(inbox)))
  {
    hide L1.SendProtected, L2.SendProtected, L1.InStep, L2.InStep, L1.TrueReplyNext, L2.UnforgedNext;
    hide L1.CardAfter, L2.CardAfter, Cbc.LawfulCipher, V2.LawfulAead, L1.Answered, L2.Answered;
    match h {
      case Host1(st) => L1.ExchangeKeepsStep(l.l1, st, sent, req);
      case Host2(st) =>
        L2.UnforgedExactly(l.l2, st, sent, req);
        if L2.UnforgedNext(l.l2, st, sent, req) {
          L2.ExchangeKeepsStep(l.l2, st, sent, req);
        }
    }
  }

  /** A closed host sends nothing. */
  lemma ClosedExchange(x: Suites, l: CardLink, h: Host, sent: seq<ApduCommand>, req: Request)
    requires l.Sound(x) && InStep(l, h, sent) && h.Keyed() && !h.Open()
    ensures SendProtected(x, h, l.Respond(), sent, req).0 == h
    ensures SendProtected(x, h, l.Respond(), sent, req).1 == sent
    ensures SendProtected(x, h, l.Respond(), sent, req).2.Err?
  {
    hide L1.SendProtected, L2.SendProtected, L1.CardAfter, L2.CardAfter, L1.Respond, L2.Respond;
    hide Cbc.LawfulCipher, V2.LawfulAead;
    match h
    case Host1(st) => L1.RefusedRequest(x.v1, st, l.Respond(), sent, req);
    case Host2(st) => L2.RefusedRequest(x.v2, st, l.Respond(), sent, req);
  }

  // --- The write ------------------------------------------------------------

  /** Where a chunked write stands: the chunks up to an offset executed and acknowledged, and
      at most the next one executed besides. */
  ghost predicate Progress(l: CardLink, before: seq<PlainCommand>, after: seq<PlainCommand>, data: seq<byte>,
                           from: nat, acked: nat)
  {
    && from <= acked <= |data|
    && (acked == |data| || acked % NDEF_MAX_CHUNK_SIZE == 0)
    && AllAcknowledged(l.App(), before, Chunks(data, from, acked))
    && (after == before + Chunks(data, from, acked)
        || (acked < |data| && after == before + Chunks(data, from, acked) + [ChunkRequest(data, acked).Plain()]))
  }

  ghost predicate AllAcknowledged(app: App, before: seq<PlainCommand>, cmds: seq<PlainCommand>) {
    forall i :: 0 < i <= |cmds| ==> Acknowledges(app, before + cmds[..i])
  }

  /** How far the host knows the data to be written: up to the first chunk for which it did
      not receive an OK reply that leaves the session open. */
  function Confirmed(x: Suites, h: Host, respond: Transport, sent: seq<ApduCommand>, data: seq<byte>, off: nat)
    : (n: nat)
    requires h.Keyed() && off < |data|
    ensures n <= |data|
    decreases |data| - off
  {
    var req := ChunkRequest(data, off);
    var (after, sent', r) := SendProtected(x, h, respond, sent, req);
    if !after.Open() || !IsOk(r) then off
    else if off + |req.data| == |data| then |data|
    else Confirmed(x, after, respond, sent', data, off + |req.data|)
  }

  predicate IsOk(r: Result<ApduResponse>) {
    r.Ok? && r.value.sw == SW_OK
  }

  /** A write of any length from any chunk on, over any line, up to the first chunk for which
      another reply than the card's own is accepted: the card has executed and acknowledged
      exactly the chunks that the host knows of, and at most one more is executed. If there is
      no such chunk, that is the whole write, and its result is an OK status with the session
      open exactly if it is all of the data. */
  lemma {:induction false} WriteProgress(x: Suites, l: CardLink, h: Host, sent: seq<ApduCommand>, data: seq<byte>, off: nat)
    requires l.Sound(x) && InStep(l, h, sent) && h.Keyed() && h.Open()
    requires off < |data| && off % NDEF_MAX_CHUNK_SIZE == 0
    ensures
      var t := TrueWriteRun(x, l, h, sent, data, off);
      && InStep(l, t.host, t.sent)
      && Progress(l, l.Inbox(sent), l.Inbox(t.sent), data, off, t.acked)
      && if t.whole then
           var (after, sent', r) := WriteChunks(x, h, l.Respond(), sent, data, off);
           && (after, sent') == (t.host, t.sent) && t.acked == Confirmed(x, h, l.Respond(), sent, data, off)
           && (after.Open() && IsOk(r) <==> t.acked == |data|)
         else t.acked < |data| && !Answered(l, t.host, t.sent, ChunkRequest(data, t.acked))
    decreases |data| - off
  {
    hide SendProtected, InStep, CardLink.Sound, CardLink.Inbox, CardLink.Respond, CardLink.App, Acknowledges;
    hide Progress, Chunks, WriteChunks, ChunkRequest, TrueReplyNext, Answered;
    var req := ChunkRequest(data, off);
    var next := off + |req.data|;
    ChunkExchange(x, l, h, sent, req);
    var (h1, sent1, r1) := SendProtected(x, h, l.Respond(), sent, req);
    var before := l.Inbox(sent);
    WriteUnfolds(x, h, l.Respond(), sent, data, off);
    if !TrueReplyNext(l, h, sent, req) {
      NoChunk(l, before, data, off);
    } else if h1.Open() && IsOk(r1) {
      AcknowledgedReply(l.App(), before + [req.Plain()], r1);
      if next == |data| {
        LastChunk(l, before, data, off);
      } else {
        NextChunk(data, off);
        WriteProgress(x, l, h1, sent1, data, next);
        var t := TrueWriteRun(x, l, h1, sent1, data, next);
        ExtendProgress(l, before, l.Inbox(t.sent), data, off, t.acked);
      }
    } else {
      NoChunk(l, before, data, off);
      if IsOk(r1) && next < |data| {
        ClosedExchange(x, l, h1, sent1, ChunkRequest(data, next));
        WriteUnfolds(x, h1, l.Respond(), sent1, data, next);
      }
    }
  }

  lemma WriteUnfolds(x: Suites, h: Host, respond: Transport, sent: seq<ApduCommand>, data: seq<byte>, off: nat)
    requires h.Keyed() && off < |data|
    ensures
      var req := ChunkRequest(data, off);
      var (after, sent', r) := SendProtected(x, h, respond, sent, req);
      && off + |req.data| <= |data|
      && WriteChunks(x, h, respond, sent, data, off) ==
         if r.Err? || r.value.sw != SW_OK || off + |req.data| == |data| then (after, sent', r)
         else WriteChunks(x, after, respond, sent', data, off + |req.data|)
  {
    hide SendProtected;
  }

  lemma FirstChunk(data: seq<byte>, off: nat, to: nat)
    requires off < to <= |data|
    ensures Chunks(data, off, to)
      == [ChunkRequest(data, off).Plain()] + Chunks(data, off + |ChunkRequest(data, off).data|, to)
  {
  }

  lemma NextChunk(data: seq<byte>, off: nat)
    requires off < |data| && off % NDEF_MAX_CHUNK_SIZE == 0
    requires off + |ChunkRequest(data, off).data| < |data|
    ensures (off + |ChunkRequest(data, off).data|) % NDEF_MAX_CHUNK_SIZE == 0
  {
    hide OffsetParameter;
  }

  lemma NoChunk(l: CardLink, before: seq<PlainCommand>, data: seq<byte>, off: nat)
    requires off < |data| && off % NDEF_MAX_CHUNK_SIZE == 0
    ensures Progress(l, before, before, data, off, off)
    ensures Progress(l, before, before + [ChunkRequest(data, off).Plain()], data, off, off)
  {
    assert Chunks(data, off, off) == [];
    assert before + [] == before;
  }

  lemma LastChunk(l: CardLink, before: seq<PlainCommand>, data: seq<byte>, off: nat)
    requires off < |data| && off + |ChunkRequest(data, off).data| == |data|
    requires Acknowledges(l.App(), before + [ChunkRequest(data, off).Plain()])
    ensures Progress(l, before, before + [ChunkRequest(data, off).Plain()], data, off, |data|)
    ensures Chunks(data, off, |data|) == [ChunkRequest(data, off).Plain()]
  {
    hide Acknowledges;
    var cmd := ChunkRequest(data, off).Plain();
    assert Chunks(data, |data|, |data|) == [];
    assert Chunks(data, off, |data|) == [cmd];
    assert [cmd][..1] == [cmd];
  }

  lemma AcknowledgedReply(app: App, inbox: seq<PlainCommand>, r: Result<ApduResponse>)
    requires r == ParseResponse(app(inbox)) && r.Ok? && r.value.sw == SW_OK
    ensures Acknowledges(app, inbox)
  {
  }

  lemma ExtendProgress(l: CardLink, before: seq<PlainCommand>, after: seq<PlainCommand>, data: seq<byte>,
                       off: nat, acked: nat)
    requires off < |data|
    requires var cmd := ChunkRequest(data, off).Plain();
      && Acknowledges(l.App(), before + [cmd])
      && Progress(l, before + [cmd], after, data, off + |ChunkRequest(data, off).data|, acked)
    ensures Progress(l, before, after, data, off, acked)
  {
    hide Acknowledges;
    var cmd := ChunkRequest(data, off).Plain();
    var tail := Chunks(data, off + |ChunkRequest(data, off).data|, acked);
    assert Chunks(data, off, acked) == [cmd] + tail;
    assert before + ([cmd] + tail) == before + [cmd] + tail;
    forall i | 0 < i <= |[cmd] + tail|
      ensures Acknowledges(l.App(), before + ([cmd] + tail)[..i])
    {
      if i > 1 {
        assert before + ([cmd] + tail)[..i] == before + [cmd] + tail[..i - 1];
      } else {
        assert ([cmd] + tail)[..1] == [cmd];
      }
    }
  }

  // --- What is stored -------------------------------------------------------

  lemma MemorySnoc(app: App, inbox: seq<PlainCommand>, cmd: PlainCommand)
    ensures Memory(app, inbox + [cmd])
      == if StoresNdef(cmd) && Acknowledges(app, inbox + [cmd])
         then Write(Memory(app, inbox), Scale(cmd.p2), cmd.data) else Memory(app, inbox)
  {
    hide Acknowledges, Write;
    assert (inbox + [cmd])[..|inbox|] == inbox;
  }

  /** Writing one piece after the other is writing both at once. */
  lemma WriteJoins(mem: map<nat, byte>, data: seq<byte>, from: nat, mid: nat, to: nat)
    requires from <= mid <= to <= |data|
    ensures Write(Write(mem, from, data[from..mid]), mid, data[mid..to]) == Write(mem, from, data[from..to])
  {
    var both, once := Write(Write(mem, from, data[from..mid]), mid, data[mid..to]), Write(mem, from, data[from..to]);
    forall a: nat
      ensures a in both <==> a in once
      ensures a in both ==> both[a] == once[a]
    {
      assert Inside(a, from, to - from) <==> Inside(a, from, mid - from) || Inside(a, mid, to - mid);
    }
  }

  lemma WriteNothing(mem: map<nat, byte>, start: nat)
    ensures Write(mem, start, []) == mem
  {
  }

  lemma WrittenIsHeld(mem: map<nat, byte>, data: seq<byte>, n: nat)
    requires n <= |data|
    ensures Holds(Write(mem, 0, data[..n]), data, n)
  {
    forall a | 0 <= a < n
      ensures a in Write(mem, 0, data[..n]) && Write(mem, 0, data[..n])[a] == data[a]
    {
      assert Inside(a, 0, n);
    }
  }

  /** A chunk of at most 1100 bytes of data is stored at its offset, if it is acknowledged. */
  lemma ChunkStored(app: App, inbox: seq<PlainCommand>, data: seq<byte>, off: nat)
    requires off < |data| <= 1100 && off % NDEF_MAX_CHUNK_SIZE == 0
    ensures var inbox' := inbox + [ChunkRequest(data, off).Plain()];
      Memory(app, inbox')
      == if Acknowledges(app, inbox') then Write(Memory(app, inbox), off, ChunkRequest(data, off).data)
         else Memory(app, inbox)
  {
    hide Memory, Acknowledges, Write, OffsetParameter;
    AddressWraps(off);
    MemorySnoc(app, inbox, ChunkRequest(data, off).Plain());
  }

  lemma AcknowledgedTail(app: App, before: seq<PlainCommand>, first: PlainCommand, rest: seq<PlainCommand>)
    requires AllAcknowledged(app, before, [first] + rest)
    ensures Acknowledges(app, before + [first]) && AllAcknowledged(app, before + [first], rest)
  {
    hide Acknowledges;
    assert ([first] + rest)[..1] == [first];
    forall i | 0 < i <= |rest|
      ensures Acknowledges(app, before + [first] + rest[..i])
    {
      assert before + [first] + rest[..i] == before + ([first] + rest)[..i + 1];
    }
  }

  /** Up to 1100 bytes, the chunks between two offsets, executed and acknowledged, write just
      the data between them. */
  lemma {:induction false} ChunksStored(app: App, before: seq<PlainCommand>, data: seq<byte>, from: nat, to: nat)
    requires from <= to <= |data| <= 1100 && from % NDEF_MAX_CHUNK_SIZE == 0
    requires to == |data| || to % NDEF_MAX_CHUNK_SIZE == 0
    requires AllAcknowledged(app, before, Chunks(data, from, to))
    ensures Memory(app, before + Chunks(data, from, to)) == Write(Memory(app, before), from, data[from..to])
    decreases |data| - from
  {
    hide Memory, Acknowledges, AllAcknowledged, OffsetParameter, Write;
    if from == to {
      assert before + Chunks(data, from, to) == before;
      WriteNothing(Memory(app, before), from);
    } else {
      var cmd := ChunkRequest(data, from).Plain();
      var next := from + |cmd.data|;
      var tail := Chunks(data, next, to);
      FirstChunk(data, from, to);
      AcknowledgedTail(app, before, cmd, tail);
      ChunkStored(app, before, data, from);
      WriteJoins(Memory(app, before), data, from, next, to);
      assert before + ([cmd] + tail) == before + [cmd] + tail;
      if next == |data| {
        assert tail == [] && before + [cmd] + tail == before + [cmd];
        WriteNothing(Memory(app, before + [cmd]), next);
      } else {
        ChunksStored(app, before + [cmd], data, next, to);
      }
    }
  }

  /** What the memory of a card is like after it was told to store the data up to an offset,
      and perhaps one more chunk: it holds the data up to there, or up to the end of that
      chunk, and is as it was everywhere else. */
  ghost predicate Stored(before: map<nat, byte>, after: map<nat, byte>, data: seq<byte>, acked: nat)
    requires acked <= |data|
  {
    || after == Write(before, 0, data[..acked])
    || (acked < |data| && after == Write(before, 0, data[..Min(acked + NDEF_MAX_CHUNK_SIZE, |data|)]))
  }

  lemma ProgressStored(l: CardLink, before: seq<PlainCommand>, after: seq<PlainCommand>, data: seq<byte>, acked: nat)
    requires |data| <= 1100 && Progress(l, before, after, data, 0, acked)
    ensures Stored(Memory(l.App(), before), Memory(l.App(), after), data, acked)
  {
    hide Memory, Acknowledges, AllAcknowledged, Chunks, Write;
    ChunksStored(l.App(), before, data, 0, acked);
    assert data[0..acked] == data[..acked];
    if acked < |data| {
      var end := Min(acked + NDEF_MAX_CHUNK_SIZE, |data|);
      ChunkStored(l.App(), before + Chunks(data, 0, acked), data, acked);
      WriteJoins(Memory(l.App(), before), data, 0, acked, end);
      assert data[0..end] == data[..end];
    }
  }

  // --- Enough nonces --------------------------------------------------------

  /** A version 2 host can still send this many commands and stay open; version 1 has no limit. */
  predicate Room(h: Host, n: nat) {
    h.Host2? ==> BigEndian(h.st2.nonce) + n < Pow256(|h.st2.nonce|)
  }

  function ChunkCount(data: seq<byte>, off: nat): nat {
    |Chunks(data, off, |data|)|
  }

  /** With room, an OK status comes with the session open, and the room shrinks by one. */
  lemma RoomForOne(x: Suites, h: Host, respond: Transport, sent: seq<ApduCommand>, req: Request, n: nat)
    requires h.Keyed() && h.Open() && Room(h, n + 1)
    ensures
      var (after, _, r) := SendProtected(x, h, respond, sent, req);
      && (IsOk(r) ==> after.Open())
      && (after.Open() ==> Room(after, n))
  {
    hide BigEndian, Pow256, L1.SendProtected, V2.Increment, V2.AtLimit, V2.Inner;
    match h
    case Host1(st) => OkStaysOpen1(x.v1, st, respond, sent, req);
    case Host2(st) => V2.IncrementCounts(st.nonce);
  }

  lemma OkStaysOpen1(s: V1.Suite, st: V1.Session, respond: Transport, sent: seq<ApduCommand>, req: Request)
    requires V1.Keyed(st) && st.open
    ensures var (after, _, r) := L1.SendProtected(s, st, respond, sent, req);
      IsOk(r) ==> after.open
  {
    hide V1.ProtectedCommand, V1.Transmit;
    var (mid, cmd) := V1.ProtectedCommand(s, st, 0x80, req.ins, req.p1, req.p2, req.data);
    if cmd.Ok? {
      L1.OkStaysOpen(s, mid, respond(sent + [cmd.value]));
    }
  }

  /** With room for all chunks, an OK result of a write comes with the session open. */
  lemma {:induction false} RoomForAll(x: Suites, h: Host, respond: Transport, sent: seq<ApduCommand>, data: seq<byte>, off: nat)
    requires h.Keyed() && h.Open() && off < |data| && Room(h, ChunkCount(data, off))
    ensures var (after, _, r) := WriteChunks(x, h, respond, sent, data, off);
      IsOk(r) ==> after.Open()
    decreases |data| - off
  {
    hide SendProtected, Room, WriteChunks, ChunkRequest;
    var req := ChunkRequest(data, off);
    var next := off + |req.data|;
    WriteUnfolds(x, h, respond, sent, data, off);
    FirstChunk(data, off, |data|);
    RoomForOne(x, h, respond, sent, req, ChunkCount(data, next));
    var (h1, sent1, r1) := SendProtected(x, h, respond, sent, req);
    if IsOk(r1) && next < |data| {
      RoomForAll(x, h1, respond, sent1, data, next);
    }
  }

  // --- The main result ------------------------------------------------------

  /** NDEF write: over either channel version and any line, writing prefixed data of at most
      1100 bytes to a card of major version 3 or later, up to the first chunk for which another
      reply than the card's own is accepted. The card has acknowledged exactly the chunks for
      which the host received an OK reply, and perhaps executed one more; its memory is written
      with these and otherwise as before. If there is no such chunk, that is the whole write,
      and its result is an OK status exactly if that is all the data, with the session open, as
      it is whenever there are nonces enough. */
  lemma NdefWritten(x: Suites, l: CardLink, h: Host, sent: seq<ApduCommand>, appVersion: nat, ndef: seq<byte>)
    requires l.Sound(x) && InStep(l, h, sent) && h.Keyed() && h.Open()
    requires appVersion / 256 > 2 && |Prefixed(ndef)| <= 1100
    ensures
      var data := Prefixed(ndef);
      var t := TrueWriteRun(x, l, h, sent, data, 0);
      && Progress(l, l.Inbox(sent), l.Inbox(t.sent), data, 0, t.acked)
      && Stored(Memory(l.App(), l.Inbox(sent)), Memory(l.App(), l.Inbox(t.sent)), data, t.acked)
      && if t.whole then
           var (after, sent', r) := SetNdef(x, h, l.Respond(), sent, Some(appVersion), ndef);
           && (after, sent') == (t.host, t.sent) && t.acked == Confirmed(x, h, l.Respond(), sent, data, 0)
           && (after.Open() && IsOk(r) <==> t.acked == |data|)
           && (Room(h, ChunkCount(data, 0)) ==> (IsOk(r) <==> t.acked == |data|))
         else t.acked < |data| && !Answered(l, t.host, t.sent, ChunkRequest(data, t.acked))
  {
    hide Memory, Prefixed, WriteChunks, InStep, TrueWriteRun, Confirmed, Progress, Stored, Room, IsOk, Answered;
    hide CardLink.Sound, CardLink.Inbox, CardLink.Respond;
    var data := Prefixed(ndef);
    WriteProgress(x, l, h, sent, data, 0);
    var t := TrueWriteRun(x, l, h, sent, data, 0);
    ProgressStored(l, l.Inbox(sent), l.Inbox(t.sent), data, t.acked);
    if Room(h, ChunkCount(data, 0)) {
      RoomForAll(x, h, l.Respond(), sent, data, 0);
    }
  }

  // --- Data that is too long ------------------------------------------------

  /** The chunks up to offset 1100 are stored below 1100, and none reaches beyond 1240. */
  lemma ChunkReach(k: nat, n: nat)
    requires n <= NDEF_MAX_CHUNK_SIZE
    ensures Address(NDEF_MAX_CHUNK_SIZE * k) + n <= if k <= 5 then 1100 else 1240
  {
    hide OffsetParameter;
    var off := NDEF_MAX_CHUNK_SIZE * k;
    AddressWraps(off);
    assert off % 4 == 0 && off % 1024 % 4 == 0;
  }

  lemma WriteReach(mem: map<nat, byte>, start: nat, data: seq<byte>, limit: nat)
    requires start + |data| <= limit && forall a :: a in mem ==> a < limit
    ensures forall a :: a in Write(mem, start, data) ==> a < limit
  {
  }

  lemma {:induction false} MemoryReach(app: App, before: seq<PlainCommand>, data: seq<byte>, k: nat, limit: nat)
    requires limit == if |data| <= 1240 then 1100 else 1240
    requires forall a :: a in Memory(app, before) ==> a < limit
    ensures forall a :: a in Memory(app, before + Chunks(data, NDEF_MAX_CHUNK_SIZE * k, |data|)) ==> a < limit
    decreases |data| - NDEF_MAX_CHUNK_SIZE * k
  {
    hide Memory, Acknowledges, OffsetParameter, Write;
    var from := NDEF_MAX_CHUNK_SIZE * k;
    if from < |data| {
      var req := ChunkRequest(data, from);
      var inbox := before + [req.Plain()];
      ChunkReach(k, |req.data|);
      assert k <= 5 || |data| > 1240;
      MemorySnoc(app, before, req.Plain());
      WriteReach(Memory(app, before), Address(from), req.data, limit);
      FirstChunk(data, from, |data|);
      var next := from + |req.data|;
      if next < |data| {
        MemoryReach(app, inbox, data, k + 1, limit);
      } else {
        assert Chunks(data, next, |data|) == [] && inbox + [] == inbox;
      }
      assert inbox + Chunks(data, next, |data|) == before + Chunks(data, from, |data|);
    } else {
      assert before + Chunks(data, from, |data|) == before;
    }
  }

  lemma NotHeld(mem: map<nat, byte>, data: seq<byte>, limit: nat)
    requires limit < |data| && forall a :: a in mem ==> a < limit
    ensures !Holds(mem, data, |data|)
  {
    assert limit !in mem;
  }

  /** Exactly when a fully acknowledged write to a card without NDEF data has stored the data:
      when there are at most 1100 bytes. For longer data the sixth chunk overwrites the first,
      although every reply is OK. */
  lemma AcknowledgedWriteIsExact(x: Suites, l: CardLink, h: Host, sent: seq<ApduCommand>, data: seq<byte>)
    requires l.Sound(x) && InStep(l, h, sent) && h.Keyed() && h.Open() && data != []
    requires TrueWriteRun(x, l, h, sent, data, 0).whole && Room(h, ChunkCount(data, 0))
    requires Memory(l.App(), l.Inbox(sent)) == map[]
    ensures
      var (_, sent', r) := WriteChunks(x, h, l.Respond(), sent, data, 0);
      IsOk(r) ==> (Holds(Memory(l.App(), l.Inbox(sent')), data, |data|) <==> |data| <= 1100)
  {
    hide Memory, WriteChunks, InStep, TrueWriteRun, CardLink.Sound, CardLink.Inbox, CardLink.Respond;
    hide Chunks, Holds, Room, IsOk, Confirmed, Write, AllAcknowledged;
    RoomForAll(x, h, l.Respond(), sent, data, 0);
    WriteProgress(x, l, h, sent, data, 0);
    var (after, sent', r) := WriteChunks(x, h, l.Respond(), sent, data, 0);
    if IsOk(r) {
      if |data| <= 1100 {
        ProgressStored(l, l.Inbox(sent), l.Inbox(sent'), data, |data|);
        WrittenIsHeld(map[], data, |data|);
      } else {
        var limit := if |data| <= 1240 then 1100 else 1240;
        MemoryReach(l.App(), l.Inbox(sent), data, 0, limit);
        NotHeld(Memory(l.App(), l.Inbox(sent')), data, limit);
      }
    }
  }

  // --- A line and a card on which nothing fails -----------------------------

  /** The line delivers everything, and the application answers every command with OK. */
  ghost predicate Smooth(l: CardLink) {
    && (forall i :: l.Net()(i) == Deliver)
    && (forall inbox :: l.App()(inbox) == [0x90, 0x00])
  }

  /** A delivered request of one chunk leaves the session open. */
  lemma DeliveredChunk(x: Suites, l: CardLink, h: Host, sent: seq<ApduCommand>, req: Request)
    requires l.Sound(x) && InStep(l, h, sent) && h.Keyed() && h.Open() && l.Net()(|sent|) == Deliver && Room(h, 1)
    requires |req.data| <= NDEF_MAX_CHUNK_SIZE
    ensures SendProtected(x, h, l.Respond(), sent, req).0.Open()
  {
    hide L1.SendProtected, L2.SendProtected, L1.InStep, L2.InStep, ParseResponse, Cbc.LawfulCipher, V2.LawfulAead;
    hide L1.CardAfter, L2.CardAfter, L1.Respond, L2.Respond, V2.AtLimit, BigEndian, Pow256;
    match h {
      case Host1(st) => L1.DeliveredExchange(l.l1, st, sent, req);
      case Host2(st) =>
        V2.IncrementCounts(st.nonce);
        L2.DeliveredExchange(l.l2, st, sent, req);
    }
  }

  lemma SmoothExchange(x: Suites, l: CardLink, h: Host, sent: seq<ApduCommand>, req: Request, n: nat)
    requires l.Sound(x) && InStep(l, h, sent) && h.Keyed() && h.Open() && Smooth(l) && Room(h, n + 1)
    requires |req.data| <= NDEF_MAX_CHUNK_SIZE
    ensures TrueReplyNext(l, h, sent, req)
    ensures
      var (after, sent', r) := SendProtected(x, h, l.Respond(), sent, req);
      after.Open() && InStep(l, after, sent') && Room(after, n) && r == Ok(ApduResponse([], SW_OK))
  {
    hide SendProtected, InStep, TrueReplyNext, ParseResponse, BigEndian, Pow256;
    hide CardLink.Sound, CardLink.Inbox, CardLink.Respond, CardLink.App, CardLink.Net;
    NothingForged(l, h, sent, req);
    ChunkExchange(x, l, h, sent, req);
    RoomForOne(x, h, l.Respond(), sent, req, n);
    DeliveredChunk(x, l, h, sent, req);
    OkStatus();
  }

  lemma OkStatus()
    ensures ParseResponse([0x90, 0x00]) == Ok(ApduResponse([], SW_OK))
  {
  }

  lemma NothingForged(l: CardLink, h: Host, sent: seq<ApduCommand>, req: Request)
    requires h.Keyed() && Smooth(l)
    ensures TrueReplyNext(l, h, sent, req)
  {
    hide L1.CardAfter, L2.CardAfter, V1.ProtectedCommand, V2.ProtectedCommand;
    assert l.Net()(|sent|) == Deliver;
  }

  /** There, a write of any length succeeds. */
  lemma {:induction false} SmoothWrite(x: Suites, l: CardLink, h: Host, sent: seq<ApduCommand>, data: seq<byte>, off: nat)
    requires l.Sound(x) && InStep(l, h, sent) && h.Keyed() && h.Open() && Smooth(l)
    requires off < |data| && Room(h, ChunkCount(data, off))
    ensures TrueWriteRun(x, l, h, sent, data, off).whole
    ensures
      var (after, _, r) := WriteChunks(x, h, l.Respond(), sent, data, off);
      after.Open() && r == Ok(ApduResponse([], SW_OK))
    decreases |data| - off
  {
    hide SendProtected, InStep, Smooth, Room, TrueReplyNext, CardLink.Sound, CardLink.Respond, WriteChunks, ChunkRequest;
    var req := ChunkRequest(data, off);
    var next := off + |req.data|;
    WriteUnfolds(x, h, l.Respond(), sent, data, off);
    FirstChunk(data, off, |data|);
    SmoothExchange(x, l, h, sent, req, ChunkCount(data, next));
    if next < |data| {
      var (h1, sent1, _) := SendProtected(x, h, l.Respond(), sent, req);
      SmoothWrite(x, l, h1, sent1, data, next);
    }
  }

  /** A write of any length to a card that acknowledges everything returns an OK status and
      leaves the session open; the data is stored if and only if it has at most 1100 bytes. */
  lemma LongWriteIsAcknowledged(x: Suites, l: CardLink, h: Host, sent: seq<ApduCommand>, data: seq<byte>)
    requires l.Sound(x) && InStep(l, h, sent) && h.Keyed() && h.Open() && Smooth(l)
    requires data != [] && Room(h, ChunkCount(data, 0)) && Memory(l.App(), l.Inbox(sent)) == map[]
    ensures
      var (after, sent', r) := WriteChunks(x, h, l.Respond(), sent, data, 0);
      && after.Open() && r == Ok(ApduResponse([], SW_OK))
      && (Holds(Memory(l.App(), l.Inbox(sent')), data, |data|) <==> |data| <= 1100)
  {
    hide Memory, WriteChunks, InStep, TrueWriteRun, CardLink.Sound, CardLink.Inbox, CardLink.Respond;
    hide Chunks, Holds, Room, Smooth;
    SmoothWrite(x, l, h, sent, data, 0);
    AcknowledgedWriteIsExact(x, l, h, sent, data);
  }

  // --- A replayed acknowledgement -------------------------------------------

  /** Under version 1, an earlier OK reply with at least 16 bytes of data, in place of the
      answer to the last chunk, which is lost: the write returns an OK status and the session
      is open, although the card has not executed the chunk. */
  lemma ReplayedAcknowledgement(x: Suites, l: L1.CardLink, st: V1.Session, sent: seq<ApduCommand>, data: seq<byte>,
                                off: nat, i: nat)
    requires l.suite == x.v1 && Cbc.LawfulCipher(l.suite.cipher) && L1.InStep(l, st, sent) && st.open
    requires off < |data| && off + |ChunkRequest(data, off).data| == |data|
    requires R1.Replays(l, sent, i) && !l.net(|sent|).delivered
    requires |R1.Answer(l, sent, i)| >= 18 && IsOk(ParseResponse(R1.Answer(l, sent, i)))
    ensures
      var (after, sent', r) := WriteChunks(x, Host1(st), L1.Respond(l), sent, data, off);
      after.Open() && IsOk(r) && L1.CardAfter(l, sent') == L1.CardAfter(l, sent)
  {
    var req := ChunkRequest(data, off);
    var plain := R1.Answer(l, sent, i);
    R1.UndeliveredExchange(l, st, sent, req);
    hide L1.SendProtected, L1.CardAfter, L1.Respond, L1.TrueReplyNext, L1.OwnReply, L1.SealReply, Cbc.Reopened;
    hide Cbc.LawfulCipher, R1.Answer, R1.SealedBefore, Cbc.MixFirst, ParseResponse, ChunkRequest;
    var cmd := R1.ReplayedReply(l, st, sent, req, i);
    Cbc.LongDataReopens(plain, R1.CodeOf(sent[i]), R1.CodeOf(cmd));
    SameStatus(plain, R1.CodeOf(sent[i]), R1.CodeOf(cmd));
  }

  lemma SameStatus(plain: seq<byte>, a: Cbc.Block, b: Cbc.Block)
    requires |plain| >= 18 && IsOk(ParseResponse(plain))
    ensures IsOk(ParseResponse(Cbc.MixFirst(plain, a, b)))
  {
    var mixed := Cbc.MixFirst(plain, a, b);
    assert mixed[16..] == plain[16..];
    assert forall k :: 16 <= k < |plain| ==> mixed[k] == mixed[16..][k - 16] == plain[k];
  }

  // --- Cards of major version 2 or less -------------------------------------

  /** The payloads that reach a card: 223 bytes under version 1, 242 under version 2. */
  function Limit(h: Host): nat {
    if h.Host1? then 223 else 242
  }

  /** What a card of major version 2 or less is told, or one of unknown version: one command with
      the data as it is, of instruction 0xF3. A host in step on a line that delivers has exactly
      this executed if and only if it fits; otherwise the card executes nothing. If it fits, the
      host stays open and returns the application's reply. */
  lemma OldCardWritten(x: Suites, l: CardLink, h: Host, sent: seq<ApduCommand>, version: Option<nat>, ndef: seq<byte>)
    requires l.Sound(x) && InStep(l, h, sent) && h.Keyed() && h.Open() && Room(h, 1)
    requires l.Net()(|sent|) == Deliver && (version.Some? ==> version.value / 256 <= 2)
    ensures
      var (after, sent', r) := SetNdef(x, h, l.Respond(), sent, version, ndef);
      var before, inbox := l.Inbox(sent), l.Inbox(sent');
      && inbox == (if |ndef| <= Limit(h) then before + [PlainCommand(0x80, 0xF3, 0, 0, ndef)] else before)
      && (|ndef| <= Limit(h) ==> after.Open() && r == ParseResponse(l.App()(inbox)))
  {
    hide L1.SendProtected, L2.SendProtected, L1.InStep, L2.InStep, L1.CardAfter, L2.CardAfter, L1.Respond, L2.Respond;
    hide Cbc.LawfulCipher, V2.LawfulAead, ParseResponse, V2.AtLimit, BigEndian, Pow256, L1.Answered, L1.TrueReplyNext;
    var req := Request(INS_SET_NDEF, 0, 0, ndef);
    match h
    case Host1(st) =>
      L1.DeliveredExchange(l.l1, st, sent, req);
      if |ndef| <= 223 {
        L1.ExchangeKeepsStep(l.l1, st, sent, req);
      } else {
        L1.RefusedRequest(x.v1, st, L1.Respond(l.l1), sent, req);
      }
    case Host2(st) =>
      V2.IncrementCounts(st.nonce);
      if |ndef| <= 255 {
        L2.DeliveredExchange(l.l2, st, sent, req);
        DeliveredIsUnforged(l.l2, st, sent, req);
        L2.ExchangeKeepsStep(l.l2, st, sent, req);
      } else {
        L2.RefusedRequest(x.v2, st, L2.Respond(l.l2), sent, req);
      }
  }

  lemma DeliveredIsUnforged(l: L2.CardLink, st: V2.Session, sent: seq<ApduCommand>, req: Request)
    requires l.net(|sent|) == Deliver
    ensures L2.UnforgedNext(l, st, sent, req)
  {
  }

  /** On any line on which only the card's own reply is accepted, it is executed at most once. If
      it fits and the host is still open, it was executed and answered. */
  lemma OldCardWriteOnce(x: Suites, l: CardLink, h: Host, sent: seq<ApduCommand>, version: Option<nat>, ndef: seq<byte>)
    requires l.Sound(x) && InStep(l, h, sent) && h.Keyed() && h.Open()
    requires version.Some? ==> version.value / 256 <= 2
    requires TrueReplyNext(l, h, sent, Request(0xF3, 0, 0, ndef))
    ensures
      var (after, sent', r) := SetNdef(x, h, l.Respond(), sent, version, ndef);
      var before, inbox := l.Inbox(sent), l.Inbox(sent');
      var cmd := PlainCommand(0x80, 0xF3, 0, 0, ndef);
      && InStep(l, after, sent')
      && (inbox == before || inbox == before + [cmd])
      && (after.Open() && |ndef| <= Limit(h) ==> inbox == before + [cmd] && r == ParseResponse(l.App()(inbox)))
  {
    hide L1.SendProtected, L2.SendProtected, L1.InStep, L2.InStep, L1.CardAfter, L2.CardAfter, L1.Respond, L2.Respond;
    hide Cbc.LawfulCipher, V2.LawfulAead, ParseResponse, L1.Answered, L1.TrueReplyNext, L2.UnforgedNext;
    var req := Request(INS_SET_NDEF, 0, 0, ndef);
    match h
    case Host1(st) =>
      if |ndef| <= 223 {
        L1.ExchangeKeepsStep(l.l1, st, sent, req);
      } else {
        L1.RefusedRequest(x.v1, st, L1.Respond(l.l1), sent, req);
      }
    case Host2(st) =>
      if |ndef| <= 255 {
        L2.ExchangeKeepsStep(l.l2, st, sent, req);
      } else {
        L2.RefusedRequest(x.v2, st, L2.Respond(l.l2), sent, req);
      }
  }

  /** Before the first opening the command goes out as it is, with the data as it is, and what
      comes back is returned as it is. */
  lemma OldCardWrittenPlain(x: Suites, h: Host, respond: Transport, sent: seq<ApduCommand>, version: Option<nat>,
                            ndef: seq<byte>)
    requires h.Keyed() && !h.Open() && !h.Established() && (version.Some? ==> version.value / 256 <= 2)
    ensures
      var (after, sent', r) := SetNdef(x, h, respond, sent, version, ndef);
      sent' == sent + [Command(0x80, 0xF3, 0, 0, ndef)] && r == respond(sent') && !after.Open()
  {
  }
}
