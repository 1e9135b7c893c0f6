/** A version 1 host against a mirror card over a line that loses commands and replies and puts
    others in place of replies: both chains stay equal for as long as the host stays open and
    accepts no reply but the card's own. */
module LockstepV1 {
  import opened Bytes
  import opened Apdu
  import opened Cbc
  import opened SecureChannelV1
  import opened SafetyV1
  import opened Link

  type Salt = s: seq<byte> | |s| == SC_SECRET_LENGTH witness Zeros(32)

  datatype Card = Card(
    encKey: seq<byte>, macKey: seq<byte>, iv: Block, open: bool, inbox: seq<PlainCommand>, handshakes: nat)

  /** A card with a private key, the pairing keys of its pairing slots, the salt and the first
      block of its answer to the i-th command should that open a session, and an arbitrary
      application, at the end of an arbitrary line. */
  datatype CardLink = CardLink(
    suite: Suite, priv: seq<byte>, pairings: byte -> Option<seq<byte>>, salt: nat -> Salt, iv: nat -> Block,
    app: seq<PlainCommand> -> seq<byte>, net: nat -> Net, start: Card)

  /** The sealed reply to a command, chained from the command's own code. */
  function SealReply(s: Suite, card: Card, commandMac: Block, plain: seq<byte>): (Block, ApduResponse) {
    var encrypted := EncryptPadded(s.cipher, card.encKey, commandMac, plain);
    var mac := NextIv(s, card.macKey, ReplyMeta(|encrypted| + BLOCK_SIZE), encrypted);
    (mac, ApduResponse(mac + encrypted, SW_OK))
  }

  /** The header bytes of a command, as they arrive at the card. */
  function ArrivedHeader(frame: seq<byte>): Block
    requires |frame| >= 5
  {
    frame[..5] + Zeros(11)
  }

  /** The card checks the code of a command, decrypts it, executes it and seals the reply. */
  function Execute(l: CardLink, card: Card, cmd: ApduCommand, frame: seq<byte>): (Card, ApduResponse) {
    var refusal := (card.(open := false), ApduResponse([], SW_SECURITY_CONDITION_NOT_SATISFIED));
    if |cmd.data| < BLOCK_SIZE || |frame| < 5 then refusal
    else
      var mac, encrypted := cmd.data[..BLOCK_SIZE], cmd.data[BLOCK_SIZE..];
      if mac != NextIv(l.suite, card.macKey, ArrivedHeader(frame), encrypted) then refusal
      else
        match DecryptPadded(l.suite.cipher, card.encKey, card.iv, encrypted)
        case None => refusal
        case Some(data) =>
          var inbox := card.inbox + [PlainCommand(cmd.cla, cmd.ins, cmd.p1, cmd.p2, data)];
          var (iv, reply) := SealReply(l.suite, card, mac, l.app(inbox));
          (card.(iv := iv, inbox := inbox), reply)
  }

  /** The card's answer to an opening request: its salt and first block, and the keys it derives
      from the host's key and the pairing whose slot the request names. */
  function AnswerOpening(l: CardLink, card: Card, i: nat, cmd: ApduCommand): (Card, ApduResponse) {
    match l.pairings(cmd.p1)
    case None => (card, ApduResponse([], 0x6A86))
    case Some(pairingKey) =>
      var keys := l.suite.kdf(l.suite.dh(l.priv, cmd.data), pairingKey, l.salt(i));
      (Card(keys.0, keys.1, l.iv(i), true, card.inbox, card.handshakes + 1), ApduResponse(l.salt(i) + l.iv(i), SW_OK))
  }

  predicate IsOpening(cmd: ApduCommand) {
    cmd.cla == 0x80 && cmd.ins == INS_OPEN_SECURE_CHANNEL && cmd.p2 == 0 && |cmd.data| == PUBLIC_KEY_SIZE
  }

  /** An opening request is told from a protected command by its length, which is not a number
      of whole blocks. */
  function Receive(l: CardLink, card: Card, i: nat, frame: seq<byte>): (Card, ApduResponse) {
    match ParseFrame(frame)
    case None => (card, ApduResponse([], 0x6700))
    case Some(cmd) =>
      if IsOpening(cmd) then AnswerOpening(l, card, i, cmd)
      else if !card.open then (card, ApduResponse([], 0x6985))
      else Execute(l, card, cmd, frame)
  }

  function Travel(l: CardLink, card: Card, i: nat, cmd: ApduCommand): (Card, Result<ApduResponse>) {
    var (after, reply) := Receive(l, card, i, Frame(cmd));
    match l.net(i)
    case Deliver => (after, Ok(reply))
    case LoseCommand => (card, Err(Io))
    case LoseReply => (after, Err(Io))
    case Substitute(delivered, forged) => (if delivered then after else card, Ok(forged))
  }

  function CardAfter(l: CardLink, sent: seq<ApduCommand>): Card {
    if sent == [] then l.start
    else Travel(l, CardAfter(l, sent[..|sent| - 1]), |sent| - 1, sent[|sent| - 1]).0
  }

  function Respond(l: CardLink): seq<ApduCommand> -> Result<ApduResponse> {
    (sent: seq<ApduCommand>) =>
      if sent == [] then Err(Io)
      else Travel(l, CardAfter(l, sent[..|sent| - 1]), |sent| - 1, sent[|sent| - 1]).1
  }

  /** Whether a response passes decryption and authentication under the card's keys, chained
      from the code of the command it answers. */
  predicate Verifies(l: CardLink, card: Card, cmd: ApduCommand, resp: ApduResponse) {
    && |resp.data| >= BLOCK_SIZE && |cmd.data| >= BLOCK_SIZE
    && resp.sw != SW_SECURITY_CONDITION_NOT_SATISFIED
    && var encrypted := resp.data[BLOCK_SIZE..];
    && DecryptPadded(l.suite.cipher, card.encKey, cmd.data[..BLOCK_SIZE], encrypted).Some?
    && resp.data[..BLOCK_SIZE] == NextIv(l.suite, card.macKey, ReplyMeta(|resp.data|), encrypted)
  }

  /** Whatever the line puts in place of the reply verifies only if its data is that of the
      card's own reply. This assumes more than that nobody forges a code: the code of a reply
      covers its length and ciphertext, not the command it answers nor the block before it, so
      that earlier replies of the session have a valid code as well. It also assumes that none
      of them is accepted; `ReplaysV1` says exactly when one is. */
  ghost predicate TrueReply(l: CardLink, card: Card, i: nat, cmd: ApduCommand) {
    match l.net(i)
    case Substitute(delivered, other) =>
      Verifies(l, card, cmd, other) ==> delivered && other.data == Receive(l, card, i, Frame(cmd)).1.data
    case _ => true
  }

  // --- The host's side ------------------------------------------------------

  function SendProtected(
    s: Suite, st: Session, respond: seq<ApduCommand> -> Result<ApduResponse>, sent: seq<ApduCommand>, req: Request)
    : (r: (Session, seq<ApduCommand>, Result<ApduResponse>))
    requires Keyed(st)
    ensures Keyed(r.0)
  {
    var (protecting, cmd) := ProtectedCommand(s, st, 0x80, req.ins, req.p1, req.p2, req.data);
    match cmd
    case Err(e) => (protecting, sent, Err(e))
    case Ok(c) =>
      var (after, r) := Transmit(s, protecting, respond(sent + [c]));
      (after, sent + [c], r)
  }

  function SendAll(l: CardLink, st: Session, sent: seq<ApduCommand>, reqs: seq<Request>): (Session, seq<ApduCommand>)
    requires Keyed(st)
    decreases |reqs|
  {
    if reqs == [] then (st, sent)
    else
      var (after, sent', _) := SendProtected(l.suite, st, Respond(l), sent, reqs[0]);
      SendAll(l, after, sent', reqs[1..])
  }

  /** The command that the request becomes gets the card's own reply or one that does not verify. */
  ghost predicate TrueReplyNext(l: CardLink, st: Session, sent: seq<ApduCommand>, req: Request)
    requires Keyed(st)
  {
    var cmd := ProtectedCommand(l.suite, st, 0x80, req.ins, req.p1, req.p2, req.data).1;
    cmd.Ok? ==> TrueReply(l, CardAfter(l, sent), |sent|, cmd.value)
  }

  /** A run up to the first request that gets another reply: the state before it, the requests
      accepted, and those left. */
  ghost function TrueRun(l: CardLink, st: Session, sent: seq<ApduCommand>, reqs: seq<Request>)
    : (r: (Session, seq<ApduCommand>, seq<PlainCommand>, seq<Request>))
    requires Keyed(st)
    ensures Keyed(r.0)
    decreases |reqs|
  {
    if reqs == [] || !TrueReplyNext(l, st, sent, reqs[0]) then (st, sent, [], reqs)
    else
      var (mid, sent1, _) := SendProtected(l.suite, st, Respond(l), sent, reqs[0]);
      var (after, sent', accepted, rest) := TrueRun(l, mid, sent1, reqs[1..]);
      (after, sent', Accepted(reqs[0]) + accepted, rest)
  }

  function Accepted(req: Request): seq<PlainCommand> {
    if |req.data| <= 223 then [req.Plain()] else []
  }

  ghost predicate InStep(l: CardLink, st: Session, sent: seq<ApduCommand>) {
    && Keyed(st)
    && (st.open ==>
      var card := CardAfter(l, sent);
      && card.open
      && st.encKey == Some(card.encKey) && st.macKey == Some(card.macKey)
      && st.iv == card.iv)
  }

  /** A card executes a protected command and answers under the command's code. */
  lemma CardReceives(l: CardLink, card: Card, i: nat, st: Session, cmd: ApduCommand, data: seq<byte>)
    requires card.open && st.encKey == Some(card.encKey) && st.macKey == Some(card.macKey) && st.iv == card.iv
    requires Protects(l.suite, st, cmd, data)
    ensures
      var inbox := card.inbox + [PlainCommand(cmd.cla, cmd.ins, cmd.p1, cmd.p2, data)];
      var (iv, reply) := SealReply(l.suite, card, cmd.data[..BLOCK_SIZE], l.app(inbox));
      Receive(l, card, i, Frame(cmd)) == (card.(iv := iv, inbox := inbox), reply)
  {
    hide Frame, ParseFrame, Decrypt, Unpad, Mac, CommandMeta, SealReply, ArrivedHeader;
    FrameRoundTrip(cmd);
    HeaderArrives(cmd);
  }

  /** The header that the host authenticates is the one that arrives. */
  lemma HeaderArrives(cmd: ApduCommand)
    requires 0 < |cmd.data| <= 255
    ensures |Frame(cmd)| >= 5 && ArrivedHeader(Frame(cmd)) == CommandMeta(cmd.cla, cmd.ins, cmd.p1, cmd.p2, |cmd.data|)
  {
    assert Frame(cmd)[..5] == [cmd.cla, cmd.ins, cmd.p1, cmd.p2, |cmd.data|];
  }

  /** The reply sealed under a command's code opens, under that code, to the plaintext, and
      leaves the host's block equal to the card's. */
  lemma ReplyOpens(s: Suite, card: Card, st: Session, plain: seq<byte>)
    requires LawfulCipher(s.cipher) && st.open
    requires st.encKey == Some(card.encKey) && st.macKey == Some(card.macKey)
    ensures var (iv, reply) := SealReply(s, card, st.iv, plain);
      OpenReply(s, st, reply.data) == (st.(iv := iv), ParseResponse(plain))
  {
    hide DecryptPadded, EncryptPadded, Mac, ReplyMeta, ParseResponse;
    PaddedRoundTrip(s.cipher, card.encKey, st.iv, plain);
    var (iv, reply) := SealReply(s, card, st.iv, plain);
    assert reply.data[..BLOCK_SIZE] == iv;
    assert reply.data[BLOCK_SIZE..] == EncryptPadded(s.cipher, card.encKey, st.iv, plain);
  }

  /** What an open host does with a response that does not verify: it closes. */
  lemma UnverifiedCloses(l: CardLink, card: Card, st: Session, cmd: ApduCommand, resp: ApduResponse)
    requires st.open && st.encKey == Some(card.encKey) && st.macKey == Some(card.macKey)
    requires |cmd.data| >= BLOCK_SIZE && st.iv == cmd.data[..BLOCK_SIZE]
    requires !Verifies(l, card, cmd, resp)
    ensures !Transmit(l.suite, st, Ok(resp)).0.open
  {
    hide DecryptPadded, Mac, ReplyMeta;
  }

  /** And with one that does: it goes on from the code of the response. */
  lemma VerifiedKeeps(l: CardLink, card: Card, st: Session, cmd: ApduCommand, resp: ApduResponse)
    requires st.open && st.encKey == Some(card.encKey) && st.macKey == Some(card.macKey)
    requires |cmd.data| >= BLOCK_SIZE && st.iv == cmd.data[..BLOCK_SIZE]
    requires Verifies(l, card, cmd, resp)
    ensures Transmit(l.suite, st, Ok(resp)).0 == st.(iv := resp.data[..BLOCK_SIZE])
  {
    hide DecryptPadded, Mac, ReplyMeta;
  }

  /** An open host that returns an OK status is still open. */
  lemma OkStaysOpen(s: Suite, st: Session, outcome: Result<ApduResponse>)
    requires Keyed(st) && st.open
    ensures var (after, r) := Transmit(s, st, outcome);
      r.Ok? && r.value.sw == SW_OK ==> after.open
  {
    hide DecryptPadded, NextIv, ParseResponse;
  }

  /** The outcome, on any line, of a command of a host in step: the host is open afterwards
      exactly if the response verifies, and then goes on from its code. */
  lemma OutcomeOnAnyLine(l: CardLink, card: Card, before: Session, i: nat, cmd: ApduCommand, data: seq<byte>)
    requires LawfulCipher(l.suite.cipher) && card.open && before.open
    requires before.encKey == Some(card.encKey) && before.macKey == Some(card.macKey) && before.iv == card.iv
    requires BLOCK_SIZE < |cmd.data| && Protects(l.suite, before, cmd, data)
    ensures
      var (card', outcome) := Travel(l, card, i, cmd);
      var (after, r) := Transmit(l.suite, before.(iv := cmd.data[..BLOCK_SIZE]), outcome);
      var inbox := card.inbox + [PlainCommand(cmd.cla, cmd.ins, cmd.p1, cmd.p2, data)];
      && (card' == card || card' == card.(iv := card'.iv, inbox := inbox))
      && (card' == card <==> l.net(i) == LoseCommand || (l.net(i).Substitute? && !l.net(i).delivered))
      && after.established == before.established
      && (after.open <==> outcome.Ok? && Verifies(l, card, cmd, outcome.value))
      && (after.open ==> after == before.(iv := outcome.value.data[..BLOCK_SIZE]))
      && (l.net(i) == Deliver ==> after.open)
  {
    hide Frame, SealReply, Receive, Protects, OpenReply, Verifies, ParseResponse;
    var mid := before.(iv := cmd.data[..BLOCK_SIZE]);
    var inbox := card.inbox + [PlainCommand(cmd.cla, cmd.ins, cmd.p1, cmd.p2, data)];
    CardReceives(l, card, i, before, cmd, data);
    ReplyOpens(l.suite, card, mid, l.app(inbox));
    SealedReplyIsOk(l.suite, card, cmd.data[..BLOCK_SIZE], l.app(inbox));
    match Travel(l, card, i, cmd).1 {
      case Err(_) =>
      case Ok(resp) =>
        if Verifies(l, card, cmd, resp) {
          VerifiedKeeps(l, card, mid, cmd, resp);
        } else {
          UnverifiedCloses(l, card, mid, cmd, resp);
        }
    }
  }

  /** If only the card's own reply verifies, a host still open afterwards has the application's
      reply and stands at the card's block. Otherwise, and exactly then, it is open without the
      command executed or with the data of another reply. */
  lemma OutcomeOfTrueReply(l: CardLink, card: Card, before: Session, i: nat, cmd: ApduCommand, data: seq<byte>)
    requires LawfulCipher(l.suite.cipher) && card.open && before.open
    requires before.encKey == Some(card.encKey) && before.macKey == Some(card.macKey) && before.iv == card.iv
    requires BLOCK_SIZE < |cmd.data| && Protects(l.suite, before, cmd, data)
    ensures
      var (card', outcome) := Travel(l, card, i, cmd);
      var (after, r) := Transmit(l.suite, before.(iv := cmd.data[..BLOCK_SIZE]), outcome);
      var inbox := card.inbox + [PlainCommand(cmd.cla, cmd.ins, cmd.p1, cmd.p2, data)];
      && (TrueReply(l, card, i, cmd) && after.open ==>
            card'.inbox == inbox && after.iv == card'.iv && r == ParseResponse(l.app(inbox)))
      && (TrueReply(l, card, i, cmd) <==>
            (after.open ==> card'.inbox == inbox && outcome.value.data == Receive(l, card, i, Frame(cmd)).1.data))
  {
    hide Frame, SealReply, Receive, Protects, OpenReply, Verifies, ParseResponse, Transmit;
    var inbox := card.inbox + [PlainCommand(cmd.cla, cmd.ins, cmd.p1, cmd.p2, data)];
    CardReceives(l, card, i, before, cmd, data);
    OutcomeOnAnyLine(l, card, before, i, cmd, data);
    var mid := before.(iv := cmd.data[..BLOCK_SIZE]);
    ReplyOpens(l.suite, card, mid, l.app(inbox));
    SealedReplyIsOk(l.suite, card, cmd.data[..BLOCK_SIZE], l.app(inbox));
    OwnDataOpens(l, card, mid, cmd, Receive(l, card, i, Frame(cmd)).1, l.app(inbox), Travel(l, card, i, cmd).1);
  }

  /** The data of the card's own reply opens to the application's reply, whatever status it
      comes with, as long as the host stays open. */
  lemma OwnDataOpens(l: CardLink, card: Card, mid: Session, cmd: ApduCommand, own: ApduResponse, plain: seq<byte>,
                     outcome: Result<ApduResponse>)
    requires mid.open && Keyed(mid)
    requires OpenReply(l.suite, mid, own.data).1 == ParseResponse(plain)
    ensures outcome.Ok? && outcome.value.data == own.data && Transmit(l.suite, mid, outcome).0.open ==>
      Transmit(l.suite, mid, outcome).1 == ParseResponse(plain)
  {
    hide OpenReply, ParseResponse;
  }

  lemma SealedReplyIsOk(s: Suite, card: Card, commandMac: Block, plain: seq<byte>)
    ensures var (iv, reply) := SealReply(s, card, commandMac, plain);
      reply.sw == SW_OK && |reply.data| > BLOCK_SIZE && reply.data[..BLOCK_SIZE] == iv
  {
    hide EncryptPadded, NextIv;
  }

  /** The card and the outcome after one more command. */
  lemma LastCommand(l: CardLink, sent: seq<ApduCommand>, cmd: ApduCommand)
    ensures (CardAfter(l, sent + [cmd]), Respond(l)(sent + [cmd])) == Travel(l, CardAfter(l, sent), |sent|, cmd)
  {
    hide Travel;
    assert (sent + [cmd])[..|sent|] == sent;
  }

  /** The command that a request becomes, and the card and the transport's outcome after it. */
  lemma SentRequest(l: CardLink, st: Session, sent: seq<ApduCommand>, req: Request) returns (cmd: ApduCommand)
    requires LawfulCipher(l.suite.cipher) && Keyed(st) && st.open && |req.data| <= 223
    ensures (cmd.cla, cmd.ins, cmd.p1, cmd.p2) == (0x80, req.ins, req.p1, req.p2)
    ensures BLOCK_SIZE < |cmd.data| <= 255 && Protects(l.suite, st, cmd, req.data)
    ensures TrueReplyNext(l, st, sent, req) <==> TrueReply(l, CardAfter(l, sent), |sent|, cmd)
    ensures
      var (card', outcome) := Travel(l, CardAfter(l, sent), |sent|, cmd);
      var (after, r) := Transmit(l.suite, st.(iv := cmd.data[..BLOCK_SIZE]), outcome);
      && SendProtected(l.suite, st, Respond(l), sent, req) == (after, sent + [cmd], r)
      && CardAfter(l, sent + [cmd]) == card' && Respond(l)(sent + [cmd]) == outcome
  {
    hide ProtectedCommand, Travel, Transmit, Protects, TrueReply, LawfulCipher;
    ProtectedFrame(l.suite, st, 0x80, req.ins, req.p1, req.p2, req.data);
    cmd := ProtectedCommand(l.suite, st, 0x80, req.ins, req.p1, req.p2, req.data).1.value;
    assert (sent + [cmd])[..|sent|] == sent;
  }

  /** The card's own reply to the last command of a history. */
  function OwnReply(l: CardLink, sent: seq<ApduCommand>): ApduResponse
    requires sent != []
  {
    var i := |sent| - 1;
    Receive(l, CardAfter(l, sent[..i]), i, Frame(sent[i])).1
  }

  /** A host that is open after an exchange had its request executed and holds the data of the
      card's own reply. */
  ghost predicate Answered(l: CardLink, st: Session, sent: seq<ApduCommand>, req: Request)
    requires Keyed(st)
  {
    var (after, sent', _) := SendProtected(l.suite, st, Respond(l), sent, req);
    after.open && sent' != [] && Respond(l)(sent').Ok? ==>
      && CardAfter(l, sent').inbox == CardAfter(l, sent).inbox + [req.Plain()]
      && Respond(l)(sent').value.data == OwnReply(l, sent').data
  }

  /** One exchange of an open host in step, over any line at all: the card executes the request
      at most once and nothing else. The host afterwards is closed, or stands at the code of a
      response that verified, and is in step exactly if the card stands there too. Exactly when
      no other reply than the card's own verifies, a host still open had the request executed
      and holds that reply; it is then in step, and returns the application's reply. */
  lemma ExchangeKeepsStep(l: CardLink, st: Session, sent: seq<ApduCommand>, req: Request)
    requires LawfulCipher(l.suite.cipher) && InStep(l, st, sent)
    requires st.open && |req.data| <= 223
    ensures
      var (after, sent', r) := SendProtected(l.suite, st, Respond(l), sent, req);
      var before, inbox := CardAfter(l, sent).inbox, CardAfter(l, sent').inbox;
      && (inbox == before || inbox == before + [req.Plain()])
      && after.established == st.established
      && (InStep(l, after, sent') <==> after.open ==> after.iv == CardAfter(l, sent').iv)
      && (TrueReplyNext(l, st, sent, req) ==>
            InStep(l, after, sent')
            && (after.open ==> inbox == before + [req.Plain()] && r == ParseResponse(l.app(inbox))))
      && (l.net(|sent|).LoseCommand? || l.net(|sent|).LoseReply? ==> !after.open)
    ensures TrueReplyNext(l, st, sent, req) <==> Answered(l, st, sent, req)
  {
    hide ProtectedCommand, Transmit, Protects, TrueReply, TrueReplyNext, LawfulCipher, Receive, Frame, SendProtected;
    hide Respond, CardAfter, Verifies, ParseResponse;
    var card := CardAfter(l, sent);
    var cmd := SentRequest(l, st, sent, req);
    OutcomeOnAnyLine(l, card, st, |sent|, cmd, req.data);
    OutcomeOfTrueReply(l, card, st, |sent|, cmd, req.data);
    assert (sent + [cmd])[..|sent|] == sent;
  }

  /** On a line that delivers, a host in step always gets its request executed and stays
      open, and returns exactly the application's reply. */
  lemma DeliveredExchange(l: CardLink, st: Session, sent: seq<ApduCommand>, req: Request)
    requires LawfulCipher(l.suite.cipher) && InStep(l, st, sent)
    requires st.open && l.net(|sent|) == Deliver
    ensures
      var (after, sent', r) := SendProtected(l.suite, st, Respond(l), sent, req);
      var before, inbox := CardAfter(l, sent).inbox, CardAfter(l, sent').inbox;
      && after.open && InStep(l, after, sent')
      && (inbox == before + [req.Plain()] <==> |req.data| <= 223)
      && (|req.data| <= 223 ==> r == ParseResponse(l.app(inbox)))
  {
    hide Transmit, Protects, LawfulCipher, Receive, Frame, Respond, CardAfter, Verifies, ParseResponse;
    ProtectedFrame(l.suite, st, 0x80, req.ins, req.p1, req.p2, req.data);
    if |req.data| <= 223 {
      hide ProtectedCommand, SendProtected;
      var cmd := SentRequest(l, st, sent, req);
      OutcomeOnAnyLine(l, CardAfter(l, sent), st, |sent|, cmd, req.data);
      OutcomeOfTrueReply(l, CardAfter(l, sent), st, |sent|, cmd, req.data);
    }
  }

  /** Requests that are refused, because they are too large or the session is closed, send
      nothing and change nothing. */
  lemma RefusedRequest(s: Suite, st: Session, respond: seq<ApduCommand> -> Result<ApduResponse>,
                       sent: seq<ApduCommand>, req: Request)
    requires LawfulCipher(s.cipher) && Keyed(st) && st.established && (st.open ==> |req.data| > 223)
    ensures SendProtected(s, st, respond, sent, req).0 == st
    ensures SendProtected(s, st, respond, sent, req).1 == sent
    ensures SendProtected(s, st, respond, sent, req).2 == Err(if st.open then InvalidArgument else Protocol)
  {
    if st.open {
      ProtectedFrame(s, st, 0x80, req.ins, req.p1, req.p2, req.data);
    }
  }

  /** Lockstep over every run on any line, up to the first reply that verifies without being
      the card's own: until then the host stays in step with the card, which executes a prefix
      of the accepted requests, in order and each once, and all of them if the host is still
      open. If there is such a reply, it leaves the host open, with its request not executed or
      with the data of another reply. */
  lemma {:induction false} Lockstep(l: CardLink, st: Session, sent: seq<ApduCommand>, reqs: seq<Request>)
    requires LawfulCipher(l.suite.cipher) && InStep(l, st, sent) && st.established
    ensures
      var (after, sent', accepted, rest) := TrueRun(l, st, sent, reqs);
      var before, inbox := CardAfter(l, sent).inbox, CardAfter(l, sent').inbox;
      && InStep(l, after, sent')
      && before <= inbox <= before + accepted
      && (after.open ==> inbox == before + accepted)
      && (!st.open ==> !after.open && inbox == before)
      && (rest != [] ==> !Answered(l, after, sent', rest[0]))
    decreases |reqs|
  {
    hide CardAfter, Respond, SendProtected, TrueReplyNext, LawfulCipher, Answered, InStep, Accepted, Keyed;
    InStepIsKeyed(l, st, sent);
    if reqs != [] {
      RequestStep(l, st, sent, reqs[0]);
      if TrueReplyNext(l, st, sent, reqs[0]) {
        var (mid, sent1, _) := SendProtected(l.suite, st, Respond(l), sent, reqs[0]);
        Lockstep(l, mid, sent1, reqs[1..]);
        var (after, sent', accepted, _) := TrueRun(l, mid, sent1, reqs[1..]);
        Extends(CardAfter(l, sent).inbox, Accepted(reqs[0]), CardAfter(l, sent1).inbox, mid.open,
          accepted, CardAfter(l, sent').inbox, after.open);
      }
    }
  }

  /** A run without such a reply is the whole run. */
  lemma {:induction false} TrueRunIsWhole(l: CardLink, st: Session, sent: seq<ApduCommand>, reqs: seq<Request>)
    requires Keyed(st) && TrueRun(l, st, sent, reqs).3 == []
    ensures SendAll(l, st, sent, reqs) == (TrueRun(l, st, sent, reqs).0, TrueRun(l, st, sent, reqs).1)
    ensures TrueRun(l, st, sent, reqs).2 == Fitting(reqs, 223)
    decreases |reqs|
  {
    if reqs != [] {
      hide SendProtected, TrueReplyNext, Respond;
      var (mid, sent1, _) := SendProtected(l.suite, st, Respond(l), sent, reqs[0]);
      TrueRunIsWhole(l, mid, sent1, reqs[1..]);
    }
  }

  /** One step of an inbox that grows while the host is open, and then the others. */
  lemma Extends(before: seq<PlainCommand>, one: seq<PlainCommand>, mid: seq<PlainCommand>, open: bool,
                rest: seq<PlainCommand>, after: seq<PlainCommand>, openAfter: bool)
    requires (mid == before || mid == before + one) && (open ==> mid == before + one)
    requires mid <= after <= mid + rest && (openAfter ==> after == mid + rest)
    requires !open ==> after == mid && !openAfter
    ensures before <= after <= before + (one + rest) && (openAfter ==> after == before + (one + rest))
  {
    assert before + (one + rest) == before + one + rest;
  }

  lemma InStepIsKeyed(l: CardLink, st: Session, sent: seq<ApduCommand>)
    requires InStep(l, st, sent)
    ensures Keyed(st)
  {
  }

  /** What one request of a run does, accepted or refused. */
  lemma RequestStep(l: CardLink, st: Session, sent: seq<ApduCommand>, req: Request)
    requires LawfulCipher(l.suite.cipher) && InStep(l, st, sent) && st.established
    ensures
      var (after, sent', _) := SendProtected(l.suite, st, Respond(l), sent, req);
      var before, inbox := CardAfter(l, sent).inbox, CardAfter(l, sent').inbox;
      var one := Accepted(req);
      && (TrueReplyNext(l, st, sent, req) ==>
            && InStep(l, after, sent') && after.established
            && (inbox == before || inbox == before + one)
            && (after.open ==> inbox == before + one)
            && (!st.open ==> !after.open && inbox == before))
      && (!TrueReplyNext(l, st, sent, req) ==> !Answered(l, st, sent, req))
  {
    hide CardAfter, Respond, SendProtected, TrueReplyNext, LawfulCipher, Answered;
    if st.open && |req.data| <= 223 {
      ExchangeKeepsStep(l, st, sent, req);
    } else {
      RefusedRequest(l.suite, st, Respond(l), sent, req);
      RefusedIsTrue(l, st, sent, req);
    }
  }

  lemma RefusedIsTrue(l: CardLink, st: Session, sent: seq<ApduCommand>, req: Request)
    requires LawfulCipher(l.suite.cipher) && Keyed(st) && st.established && (st.open ==> |req.data| > 223)
    ensures TrueReplyNext(l, st, sent, req)
  {
    hide TrueReply;
    if st.open {
      ProtectedFrame(l.suite, st, 0x80, req.ins, req.p1, req.p2, req.data);
    }
  }
}
