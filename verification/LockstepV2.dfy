/** A version 2 host against a mirror card over a line that loses commands and replies and puts
    others in place of replies: host and card stay in lockstep for as long as the host stays
    open. Commands are lost but not altered on the line. */
module LockstepV2 {
  import opened Bytes
  import opened Apdu
  import opened SecureChannelV2
  import opened Link
  import NonceSafety

  /** The card's side of a session: the same keys, its own counter, every command its
      application has executed, and the number of handshakes it has answered. */
  datatype Card = Card(
    keyH2c: seq<byte>, keyC2h: seq<byte>, nonce: seq<byte>, open: bool, inbox: seq<PlainCommand>, handshakes: nat)

  /** A card with an identity key, a private key for its answer to the i-th command should that
      open a session, and an arbitrary application, at the end of an arbitrary line. */
  datatype CardLink = CardLink(
    suite: Suite, sign: (seq<byte>, seq<byte>) -> seq<byte>, identity: seq<byte>, priv: nat -> seq<byte>,
    app: seq<PlainCommand> -> seq<byte>, net: nat -> Net, start: Card)

  function ParseInner(inner: seq<byte>): Option<PlainCommand> {
    if |inner| < 5 || inner[4] != |inner| - 5 then None
    else Some(PlainCommand(inner[0], inner[1], inner[2], inner[3], inner[5..]))
  }

  /** The card's answer to an opening request: fresh keys, a zero counter, and a signature over
      the transcript as the card sees it. */
  function AnswerOpening(l: CardLink, card: Card, priv: seq<byte>, request: seq<byte>): (Card, ApduResponse) {
    if |request| < PUBKEY_SIZE then (card, ApduResponse([], 0x6A80))
    else
      var salt := request[..|request| - PUBKEY_SIZE];
      var hostPoint := request[|request| - PUBKEY_SIZE..];
      var keys := l.suite.hkdf(salt, l.suite.dh(priv, hostPoint));
      var transcript := PROTOCOL_LABEL + salt + hostPoint + l.suite.publicOf(priv);
      (Card(keys.0, keys.1, Zeros(CCM_NONCE_SIZE), true, card.inbox, card.handshakes + 1),
       ApduResponse(l.suite.publicOf(priv) + l.sign(l.identity, transcript), SW_OK))
  }

  /** The card executes a protected command that decrypts and parses, and seals the reply under
      the nonce of the command. */
  function Execute(l: CardLink, card: Card, ciphertext: seq<byte>): (Card, ApduResponse) {
    match l.suite.unseal(card.keyH2c, card.nonce, ciphertext)
    case None => (card.(open := false), ApduResponse([], SW_SECURITY_CONDITION_NOT_SATISFIED))
    case Some(inner) =>
      match ParseInner(inner)
      case None => (card.(open := false), ApduResponse([], 0x6F00))
      case Some(plain) =>
        var inbox := card.inbox + [plain];
        (card.(nonce := Increment(card.nonce), open := !AtLimit(card.nonce), inbox := inbox),
         ApduResponse(l.suite.seal(card.keyC2h, card.nonce, l.app(inbox)), SW_OK))
  }

  predicate IsOpening(cmd: ApduCommand) {
    cmd.cla == 0x80 && cmd.ins == INS_OPEN_SECURE_CHANNEL && cmd.p1 == 0 && cmd.p2 == 0
  }

  /** The card opens sessions and executes protected commands; it answers anything else with an
      error status. */
  function Receive(l: CardLink, card: Card, i: nat, frame: seq<byte>): (Card, ApduResponse) {
    match ParseFrame(frame)
    case None => (card, ApduResponse([], 0x6700))
    case Some(cmd) =>
      if IsOpening(cmd) then AnswerOpening(l, card, l.priv(i), cmd.data)
      else if !card.open || cmd.cla != 0x80 || cmd.ins != INS_SECURED_APDU then (card, ApduResponse([], 0x6985))
      else Execute(l, card, cmd.data)
  }

  /** One command on the line: the card afterwards, and what the host's transport returns. */
  function Travel(l: CardLink, card: Card, i: nat, cmd: ApduCommand): (Card, Result<ApduResponse>) {
    var (after, reply) := Receive(l, card, i, Frame(cmd));
    match l.net(i)
    case Deliver => (after, Ok(reply))
    case LoseCommand => (card, Err(Io))
    case LoseReply => (after, Err(Io))
    case Substitute(delivered, forged) => (if delivered then after else card, Ok(forged))
  }

  function CardAfter(l: CardLink, sent: seq<ApduCommand>): Card {
    if sent == [] then l.start
    else Travel(l, CardAfter(l, sent[..|sent| - 1]), |sent| - 1, sent[|sent| - 1]).0
  }

  /** The link as a transport: its answer to the last command of a history. */
  function Respond(l: CardLink): seq<ApduCommand> -> Result<ApduResponse> {
    (sent: seq<ApduCommand>) =>
      if sent == [] then Err(Io)
      else Travel(l, CardAfter(l, sent[..|sent| - 1]), |sent| - 1, sent[|sent| - 1]).1
  }

  /** Integrity of authenticated encryption: whatever the line substitutes is either not
      accepted under the card's key and current nonce, or is the card's own reply. Nothing is
      decrypted after the last nonce. */
  ghost predicate Unforged(l: CardLink, card: Card, i: nat, cmd: ApduCommand) {
    match l.net(i)
    case Substitute(delivered, forged) =>
      || forged.sw != SW_OK
      || AtLimit(card.nonce)
      || l.suite.unseal(card.keyC2h, card.nonce, forged.data) == None
      || (delivered && forged == Receive(l, card, i, Frame(cmd)).1)
    case _ => true
  }

  // --- The host's side ------------------------------------------------------

  /** Protecting a request and transmitting it. */
  function SendProtected(
    s: Suite, st: Session, respond: seq<ApduCommand> -> Result<ApduResponse>, sent: seq<ApduCommand>, req: Request)
    : (Session, seq<ApduCommand>, Result<ApduResponse>)
  {
    var (protecting, cmd) := ProtectedCommand(s, st, 0x80, req.ins, req.p1, req.p2, req.data);
    match cmd
    case Err(e) => (protecting, sent, Err(e))
    case Ok(c) =>
      var (after, r) := Transmit(s, protecting, respond(sent + [c]));
      (after, sent + [c], r)
  }

  function SendAll(l: CardLink, st: Session, sent: seq<ApduCommand>, reqs: seq<Request>): (Session, seq<ApduCommand>)
    decreases |reqs|
  {
    if reqs == [] then (st, sent)
    else
      var (after, sent', _) := SendProtected(l.suite, st, Respond(l), sent, reqs[0]);
      SendAll(l, after, sent', reqs[1..])
  }

  /** The line forges nothing in answer to the command this request becomes. */
  ghost predicate UnforgedNext(l: CardLink, st: Session, sent: seq<ApduCommand>, req: Request)
  {
    var cmd := ProtectedCommand(l.suite, st, 0x80, req.ins, req.p1, req.p2, req.data).1;
    cmd.Ok? ==> Unforged(l, CardAfter(l, sent), |sent|, cmd.value)
  }

  /** The line forges nothing in the course of a run. */
  ghost predicate UnforgedRun(l: CardLink, st: Session, sent: seq<ApduCommand>, reqs: seq<Request>)
    decreases |reqs|
  {
    reqs == [] || (
      && UnforgedNext(l, st, sent, reqs[0])
      && var (after, sent', _) := SendProtected(l.suite, st, Respond(l), sent, reqs[0]);
      UnforgedRun(l, after, sent', reqs[1..]))
  }

  /** No command is in flight, and an open host has the card's keys and counter. */
  ghost predicate InStep(l: CardLink, st: Session, sent: seq<ApduCommand>) {
    && st.pending.None?
    && (st.open ==>
      var card := CardAfter(l, sent);
      && card.open && st.established
      && st.keyH2c == Some(card.keyH2c) && st.keyC2h == Some(card.keyC2h)
      && st.nonce == card.nonce)
  }

  lemma InnerRoundTrip(cla: byte, ins: byte, p1: byte, p2: byte, data: seq<byte>)
    requires |data| <= 255
    ensures ParseInner(Inner(cla, ins, p1, p2, data)) == Some(PlainCommand(cla, ins, p1, p2, data))
  {
    assert Inner(cla, ins, p1, p2, data)[5..] == data;
  }

  /** What a card in step makes of the frame of a protected request: it executes the request
      exactly when the payload has at most 242 bytes; a larger one, although the host accepts
      up to 255, gives a frame with a wrong length byte, which is refused. */
  lemma CardReceives(l: CardLink, card: Card, i: nat, req: Request)
    requires LawfulAead(l.suite) && card.open && |req.data| <= 255
    ensures
      var ciphertext := l.suite.seal(card.keyH2c, card.nonce, Inner(0x80, req.ins, req.p1, req.p2, req.data));
      var inbox := card.inbox + [req.Plain()];
      Receive(l, card, i, Frame(Command(0x80, INS_SECURED_APDU, 0, 0, ciphertext)))
      == if |req.data| <= 242
         then (card.(nonce := Increment(card.nonce), open := !AtLimit(card.nonce), inbox := inbox),
               ApduResponse(l.suite.seal(card.keyC2h, card.nonce, l.app(inbox)), SW_OK))
         else (card, ApduResponse([], 0x6700))
  {
    hide Frame, ParseFrame, Increment, AtLimit;
    var inner := Inner(0x80, req.ins, req.p1, req.p2, req.data);
    var ciphertext := l.suite.seal(card.keyH2c, card.nonce, inner);
    assert |ciphertext| == |inner| + 8;
    FrameRoundTrip(Command(0x80, INS_SECURED_APDU, 0, 0, ciphertext));
    InnerRoundTrip(0x80, req.ins, req.p1, req.p2, req.data);
  }

  /** The host's session while a command to the card is in flight. */
  ghost predicate InFlight(card: Card, mid: Session) {
    && mid.established && mid.open == !AtLimit(card.nonce)
    && mid.keyH2c == Some(card.keyH2c) && mid.keyC2h == Some(card.keyC2h)
    && mid.pending == Some(card.nonce) && mid.nonce == Increment(card.nonce)
  }

  /** The outcome of a command in flight on an unforged line: a host still open afterwards is
      in step with a card that executed the request, and returns the application's reply. */
  lemma OutcomeKeepsStep(l: CardLink, card: Card, mid: Session, i: nat, cmd: ApduCommand, req: Request)
    requires LawfulAead(l.suite) && card.open && |req.data| <= 255 && InFlight(card, mid)
    requires cmd == Command(0x80, INS_SECURED_APDU, 0, 0,
      l.suite.seal(card.keyH2c, card.nonce, Inner(0x80, req.ins, req.p1, req.p2, req.data)))
    requires Unforged(l, card, i, cmd)
    ensures
      var (card', outcome) := Travel(l, card, i, cmd);
      var (after, r) := Transmit(l.suite, mid, outcome);
      var inbox := card.inbox + [req.Plain()];
      && after.established && after.pending.None?
      && (card'.inbox == card.inbox || card'.inbox == inbox)
      && (after.open ==>
            && card'.open && card'.keyH2c == card.keyH2c && card'.keyC2h == card.keyC2h
            && after.keyH2c == mid.keyH2c && after.keyC2h == mid.keyC2h && after.nonce == card'.nonce
            && card'.inbox == inbox && r == ParseResponse(l.app(inbox)))
      && (l.net(i).LoseCommand? || l.net(i).LoseReply? ==> !after.open)
      && (l.net(i) == Deliver ==>
            && (card'.inbox == inbox <==> |req.data| <= 242)
            && (after.open <==> |req.data| <= 242 && !AtLimit(card.nonce))
            && (|req.data| <= 242 && AtLimit(card.nonce) ==>
                  r == Ok(ApduResponse(l.suite.seal(card.keyC2h, card.nonce, l.app(inbox)), SW_OK))))
  {
    hide Frame, ParseFrame, Increment, AtLimit, Inner, Receive, ParseResponse;
    CardReceives(l, card, i, req);
  }

  /** One exchange of an open host in step with the card, over any unforged line. If the host
      is still open afterwards, the card executed exactly this request and the host returns
      exactly the application's reply; whatever happened, the card executed the request at
      most once and nothing else. */
  lemma ExchangeKeepsStep(l: CardLink, st: Session, sent: seq<ApduCommand>, req: Request)
    requires LawfulAead(l.suite) && InStep(l, st, sent) && UnforgedNext(l, st, sent, req)
    requires st.open && |req.data| <= 255
    ensures
      var (after, sent', r) := SendProtected(l.suite, st, Respond(l), sent, req);
      var before, inbox := CardAfter(l, sent).inbox, CardAfter(l, sent').inbox;
      && InStep(l, after, sent') && after.established
      && (inbox == before || inbox == before + [req.Plain()])
      && (after.open ==> inbox == before + [req.Plain()] && r == ParseResponse(l.app(inbox)))
      && (l.net(|sent|).LoseCommand? || l.net(|sent|).LoseReply? ==> !after.open)
  {
    hide Travel, Transmit, Unforged, LawfulAead, Increment, AtLimit, Inner;
    var card := CardAfter(l, sent);
    var (mid, sealedCmd) := ProtectedCommand(l.suite, st, 0x80, req.ins, req.p1, req.p2, req.data);
    assert (sent + [sealedCmd.value])[..|sent|] == sent;
    assert Unforged(l, card, |sent|, sealedCmd.value);
    OutcomeKeepsStep(l, card, mid, |sent|, sealedCmd.value, req);
  }

  /** The card's own reply to the last command of a history. */
  function OwnReply(l: CardLink, sent: seq<ApduCommand>): ApduResponse
    requires sent != []
  {
    var i := |sent| - 1;
    Receive(l, CardAfter(l, sent[..i]), i, Frame(sent[i])).1
  }

  /** A host that is open after an exchange had its request executed and holds the data of the
      card's own reply. */
  ghost predicate Answered(l: CardLink, st: Session, sent: seq<ApduCommand>, req: Request) {
    var (after, sent', _) := SendProtected(l.suite, st, Respond(l), sent, req);
    after.open && sent' != [] && Respond(l)(sent').Ok? ==>
      && CardAfter(l, sent').inbox == CardAfter(l, sent).inbox + [req.Plain()]
      && Respond(l)(sent').value.data == OwnReply(l, sent').data
  }

  lemma OutcomeExactly(l: CardLink, card: Card, mid: Session, i: nat, cmd: ApduCommand, req: Request)
    requires LawfulAead(l.suite) && card.open && |req.data| <= 255 && InFlight(card, mid)
    requires cmd == Command(0x80, INS_SECURED_APDU, 0, 0,
      l.suite.seal(card.keyH2c, card.nonce, Inner(0x80, req.ins, req.p1, req.p2, req.data)))
    ensures
      var (card', outcome) := Travel(l, card, i, cmd);
      var after := Transmit(l.suite, mid, outcome).0;
      Unforged(l, card, i, cmd) <==>
        (after.open && outcome.Ok? ==>
          card'.inbox == card.inbox + [req.Plain()] && outcome.value.data == Receive(l, card, i, Frame(cmd)).1.data)
  {
    hide Frame, ParseFrame, Increment, AtLimit, Inner, Receive, ParseResponse;
    CardReceives(l, card, i, req);
  }

  /** The premise of an exchange is exact: nothing is forged exactly if a host still open had
      its request executed and holds the card's own reply. */
  lemma UnforgedExactly(l: CardLink, st: Session, sent: seq<ApduCommand>, req: Request)
    requires LawfulAead(l.suite) && InStep(l, st, sent) && st.open && |req.data| <= 255
    ensures UnforgedNext(l, st, sent, req) <==> Answered(l, st, sent, req)
  {
    hide Travel, Transmit, Unforged, LawfulAead, Increment, AtLimit, Inner, Receive, Frame;
    var (mid, sealedCmd) := ProtectedCommand(l.suite, st, 0x80, req.ins, req.p1, req.p2, req.data);
    assert (sent + [sealedCmd.value])[..|sent|] == sent;
    OutcomeExactly(l, CardAfter(l, sent), mid, |sent|, sealedCmd.value, req);
  }

  /** On a line that delivers, a host in step has its request executed exactly when the
      payload has at most 242 bytes, and short of the last nonce it then returns exactly the
      application's reply and stays open; after the last nonce it returns the reply still
      sealed. */
  lemma DeliveredExchange(l: CardLink, st: Session, sent: seq<ApduCommand>, req: Request)
    requires LawfulAead(l.suite) && InStep(l, st, sent)
    requires st.open && |req.data| <= 255 && l.net(|sent|) == Deliver
    ensures
      var (after, sent', r) := SendProtected(l.suite, st, Respond(l), sent, req);
      var card, inbox := CardAfter(l, sent), CardAfter(l, sent').inbox;
      && (inbox == card.inbox + [req.Plain()] <==> |req.data| <= 242)
      && (after.open <==> |req.data| <= 242 && !AtLimit(st.nonce))
      && (after.open ==> r == ParseResponse(l.app(inbox)))
      && (|req.data| <= 242 && AtLimit(st.nonce) ==>
            r == Ok(ApduResponse(l.suite.seal(card.keyC2h, card.nonce, l.app(inbox)), SW_OK)))
  {
    hide Travel, Transmit, LawfulAead, Increment, AtLimit, Inner;
    var (mid, sealedCmd) := ProtectedCommand(l.suite, st, 0x80, req.ins, req.p1, req.p2, req.data);
    assert (sent + [sealedCmd.value])[..|sent|] == sent;
    OutcomeKeepsStep(l, CardAfter(l, sent), mid, |sent|, sealedCmd.value, req);
  }

  /** Requests that are refused, because they are too large or the session is closed, send
      nothing and change nothing. */
  lemma RefusedRequest(s: Suite, st: Session, respond: seq<ApduCommand> -> Result<ApduResponse>,
                       sent: seq<ApduCommand>, req: Request)
    requires st.established && (st.open ==> |req.data| > 255)
    ensures SendProtected(s, st, respond, sent, req).0 == st
    ensures SendProtected(s, st, respond, sent, req).1 == sent
    ensures SendProtected(s, st, respond, sent, req).2 == Err(if st.open then InvalidArgument else Protocol)
  {
  }

  /** Lockstep over every run: the host stays in step with the card. The card executes a
      prefix of the accepted requests, in order and each once; all of them if the host is
      still open at the end. */
  lemma {:induction false} Lockstep(l: CardLink, st: Session, sent: seq<ApduCommand>, reqs: seq<Request>)
    requires LawfulAead(l.suite) && InStep(l, st, sent) && st.established
    requires UnforgedRun(l, st, sent, reqs)
    ensures
      var (after, sent') := SendAll(l, st, sent, reqs);
      var before, inbox := CardAfter(l, sent).inbox, CardAfter(l, sent').inbox;
      && InStep(l, after, sent')
      && before <= inbox <= before + Fitting(reqs, 255)
      && (after.open ==> inbox == before + Fitting(reqs, 255))
    decreases |reqs|
  {
    hide CardAfter, Respond, ProtectedCommand, Transmit, UnforgedNext;
    if reqs != [] {
      var req := reqs[0];
      var (after, sent', _) := SendProtected(l.suite, st, Respond(l), sent, req);
      var before, mid := CardAfter(l, sent).inbox, CardAfter(l, sent').inbox;
      if st.open && |req.data| <= 255 {
        ExchangeKeepsStep(l, st, sent, req);
      } else {
        RefusedRequest(l.suite, st, Respond(l), sent, req);
      }
      Lockstep(l, after, sent', reqs[1..]);
      if !after.open {
        ClosedSendsNothing(l, after, sent', reqs[1..]);
      }
      FittingStep(before, reqs, 255);
    }
  }

  lemma {:induction false} ClosedSendsNothing(l: CardLink, st: Session, sent: seq<ApduCommand>, reqs: seq<Request>)
    requires !st.open && st.established
    ensures SendAll(l, st, sent, reqs) == (st, sent)
    decreases |reqs|
  {
    if reqs != [] {
      RefusedRequest(l.suite, st, Respond(l), sent, reqs[0]);
      ClosedSendsNothing(l, st, sent, reqs[1..]);
    }
  }

  // --- Openings -------------------------------------------------------------

  /** The source always draws a salt of 32 bytes. */
  type Draw = e: Ephemeral | |e.salt| == 32 witness Ephemeral(Zeros(32), [])

  function OpenOver(l: CardLink, st: Session, sent: seq<ApduCommand>, random: Result<Draw>)
    : (Session, seq<ApduCommand>, Result<()>)
  {
    match random
    case Err(e) => (st, sent, Err(e))
    case Ok(e) =>
      var sent' := sent + [OpenRequest(l.suite, e)];
      var (after, r) := AutoOpen(l.suite, st, Ok(e), Respond(l)(sent'));
      (after, sent', r)
  }

  /** The card's point in the answer to an opening. */
  function CardPoint(s: Suite, resp: ApduResponse): Option<seq<byte>> {
    if |resp.data| < PUBKEY_SIZE then None else s.decodePoint(resp.data[..PUBKEY_SIZE])
  }

  /** Integrity of signatures: whatever the line puts in place of an answer to an opening, a
      signature that the card's key accepts, over a transcript with the salt and point of this
      opening, is over the point that the card has sent in answer to it. */
  ghost predicate UnforgedOpening(l: CardLink, st: Session, sent: seq<ApduCommand>, random: Result<Draw>) {
    match l.net(|sent|)
    case Substitute(delivered, forged) =>
      random.Ok? && st.cardIdent.Some? && |forged.data| >= PUBKEY_SIZE && CardPoint(l.suite, forged).Some? ==>
        var e, point := random.value, CardPoint(l.suite, forged).value;
        var text := PROTOCOL_LABEL + e.salt + l.suite.publicOf(e.priv) + point;
        l.suite.verify(st.cardIdent.value, text, forged.data[PUBKEY_SIZE..]).Ok? ==>
          delivered && point == l.suite.publicOf(l.priv(|sent|))
    case _ => true
  }

  /** The card's part of a handshake: it derives the keys from the points as it sees them. */
  lemma CardAnswers(l: CardLink, card: Card, i: nat, e: Draw)
    requires LawfulHandshake(l.suite, l.sign)
    ensures
      var (after, reply) := Receive(l, card, i, Frame(OpenRequest(l.suite, e)));
      var keys := l.suite.hkdf(e.salt, l.suite.dh(e.priv, l.suite.publicOf(l.priv(i))));
      && after == Card(keys.0, keys.1, Zeros(CCM_NONCE_SIZE), true, card.inbox, card.handshakes + 1)
      && reply.sw == SW_OK && |reply.data| >= PUBKEY_SIZE + 2
      && reply.data[..PUBKEY_SIZE] == l.suite.publicOf(l.priv(i))
      && reply.data[PUBKEY_SIZE..] == l.sign(l.identity, Transcript(l.suite, e, l.suite.publicOf(l.priv(i))))
  {
    hide Frame, ParseFrame, Execute;
    FrameRoundTrip(OpenRequest(l.suite, e));
    var data := OpenRequest(l.suite, e).data;
    assert data[..|data| - PUBKEY_SIZE] == e.salt && data[|data| - PUBKEY_SIZE..] == l.suite.publicOf(e.priv);
  }

  /** An opening between exchanges, over any line that forges no signature, at any time: host
      and card are in step afterwards, and the card has executed nothing. */
  lemma OpeningKeepsStep(l: CardLink, st: Session, sent: seq<ApduCommand>, random: Result<Draw>)
    requires LawfulHandshake(l.suite, l.sign)
    requires InStep(l, st, sent) && UnforgedOpening(l, st, sent, random)
    ensures
      var (after, sent', r) := OpenOver(l, st, sent, random);
      && InStep(l, after, sent') && CardAfter(l, sent').inbox == CardAfter(l, sent).inbox
      && (random.Ok? ==> after.open == r.Ok?) && (st.established ==> after.established)
  {
    hide AutoOpen, LawfulHandshake, Travel, UnforgedOpening;
    if random.Ok? {
      var e := random.value;
      assert (sent + [OpenRequest(l.suite, e)])[..|sent|] == sent;
      assert OpenOver(l, st, sent, random).2
        == AutoOpen(l.suite, st, Ok(e), Travel(l, CardAfter(l, sent), |sent|, OpenRequest(l.suite, e)).1).1;
      OpeningOutcome(l, CardAfter(l, sent), st, sent, e);
    }
  }

  /** The outcome of an opening request on a line that forges no signature. */
  lemma OpeningOutcome(l: CardLink, card: Card, st: Session, sent: seq<ApduCommand>, e: Draw)
    requires LawfulHandshake(l.suite, l.sign) && UnforgedOpening(l, st, sent, Ok(e))
    ensures
      var (card', outcome) := Travel(l, card, |sent|, OpenRequest(l.suite, e));
      var (after, r) := AutoOpen(l.suite, st, Ok(e), outcome);
      && card'.inbox == card.inbox && after.open == r.Ok? && after.pending == st.pending
      && (st.established ==> after.established)
      && (after.open ==>
            && card'.open && after.established && after.nonce == card'.nonce
            && after.keyH2c == Some(card'.keyH2c) && after.keyC2h == Some(card'.keyC2h))
  {
    hide Frame, Receive, AutoOpen, Transcript, CardAfter;
    var i := |sent|;
    CardAnswers(l, card, i, e);
    PointsAgree(l, e, l.priv(i));
    hide LawfulHandshake;
    NonceSafety.OpeningExactly(l.suite, st, e, Travel(l, card, i, OpenRequest(l.suite, e)).1);
    match l.net(i) {
      case Substitute(_, forged) =>
        if NonceSafety.Vouched(l.suite, st, e, forged) {
          VouchedPoint(l, st, sent, e);
        }
      case _ =>
    }
  }

  /** On a line that forges no signature, what is vouched for is the card's point. */
  lemma VouchedPoint(l: CardLink, st: Session, sent: seq<ApduCommand>, e: Draw)
    requires UnforgedOpening(l, st, sent, Ok(e)) && l.net(|sent|).Substitute?
    requires NonceSafety.Vouched(l.suite, st, e, l.net(|sent|).reply)
    ensures l.net(|sent|).delivered
    ensures l.suite.decodePoint(l.net(|sent|).reply.data[..65]) == Some(l.suite.publicOf(l.priv(|sent|)))
  {
  }

  lemma PointsAgree(l: CardLink, e: Ephemeral, priv: seq<byte>)
    requires LawfulHandshake(l.suite, l.sign)
    ensures l.suite.decodePoint(l.suite.publicOf(priv)) == Some(l.suite.publicOf(priv))
    ensures l.suite.dh(e.priv, l.suite.publicOf(priv)) == l.suite.dh(priv, l.suite.publicOf(e.priv))
  {
  }

  /** A handshake that is delivered to the card whose identity the host holds succeeds,
      whatever the state before, and leaves both in step if no command was in flight. */
  lemma HonestHandshake(l: CardLink, st: Session, sent: seq<ApduCommand>, e: Draw)
    requires LawfulHandshake(l.suite, l.sign) && l.net(|sent|) == Deliver
    requires st.cardIdent == Some(l.suite.publicOf(l.identity))
    ensures
      var (after, sent', r) := OpenOver(l, st, sent, Ok(e));
      && r.Ok? && after.open && after.established
      && CardAfter(l, sent').inbox == CardAfter(l, sent).inbox
      && (st.pending.None? ==> InStep(l, after, sent'))
  {
    hide Frame, Receive, Transcript;
    assert (sent + [OpenRequest(l.suite, e)])[..|sent|] == sent;
    CardAnswers(l, CardAfter(l, sent), |sent|, e);
  }
}
