/** Runs of a version 1 host that sends requests and opens the channel, in any order and as
    often as it likes, from a new session on. */
module SessionsV1 {
  import opened Bytes
  import opened Apdu
  import opened Cbc
  import opened SecureChannelV1
  import opened SafetyV1
  import opened Link
  import opened LockstepV1

  // --- Openings over the link -----------------------------------------------

  /** The host's challenge; the source always draws 32 bytes. */
  type Challenge = c: seq<byte> | |c| == SC_SECRET_LENGTH witness Zeros(32)

  /** The host has a public key, the secret that the card derives from it, and a pairing that is
      in the slot of the card it names. */
  predicate Paired(l: CardLink, st: Session) {
    && st.publicKey.Some? && |st.publicKey.value| == PUBLIC_KEY_SIZE
    && st.secret == Some(l.suite.dh(l.priv, st.publicKey.value))
    && st.pairing.Some? && l.pairings(st.pairing.value.index) == Some(st.pairing.value.key)
  }

  /** Key agreement with the card's key, and the pairing in its slot, make the host paired. */
  lemma AgreementPairs(l: CardLink, st: Session, priv: seq<byte>, pairing: Pairing)
    requires LawfulAgreement(l.suite) && l.pairings(pairing.index) == Some(pairing.key)
    ensures l.suite.decodePoint(l.suite.publicOf(l.priv)).Some?
    ensures Paired(l, AgreeSecret(l.suite, st, priv, l.suite.publicOf(l.priv)).(pairing := Some(pairing)))
  {
  }

  function AuthRequest(challenge: Challenge): Request {
    Request(INS_MUTUALLY_AUTHENTICATE, 0, 0, challenge)
  }

  function OpeningOf(st: Session): ApduCommand
    requires st.publicKey.Some? && st.pairing.Some?
  {
    OpenRequest(st.publicKey.value, st.pairing.value.index)
  }

  /** The opening request, and what the host makes of the answer. */
  function Begin(l: CardLink, st: Session, sent: seq<ApduCommand>): (r: (Session, seq<ApduCommand>, Result<()>))
    requires Keyed(st) && st.publicKey.Some? && st.pairing.Some?
    ensures Keyed(r.0)
  {
    var sent1 := sent + [OpeningOf(st)];
    var (mid, processed) := OpenedBy(l.suite, st, Respond(l)(sent1));
    (mid, sent1, processed)
  }

  /** An opening over the link: the request, and the authentication if the answer is accepted. */
  function OpenOver(l: CardLink, st: Session, sent: seq<ApduCommand>, random: Result<Challenge>)
    : (r: (Session, seq<ApduCommand>, Result<()>))
    requires Keyed(st)
    ensures Keyed(r.0)
  {
    if st.publicKey.None? || st.pairing.None? then (st, sent, Err(Protocol))
    else
      var openReply := Respond(l)(sent + [OpeningOf(st)]);
      var sent' := sent + AutoOpenSends(l.suite, st, openReply, random);
      var (after, r) := AutoOpen(l.suite, st, openReply, random, Respond(l)(sent'));
      (after, sent', r)
  }

  /** The host derives its keys from the card's own answer to the opening request. */
  ghost predicate OwnAnswer(l: CardLink, st: Session, sent: seq<ApduCommand>)
    requires Keyed(st) && st.publicKey.Some? && st.pairing.Some?
  {
    var i := |sent|;
    var card := CardAfter(l, sent);
    var (mid, sent1, processed) := Begin(l, st, sent);
    && CardAfter(l, sent1) == AnswerOpening(l, card, i, OpeningOf(st)).0
    && Respond(l)(sent1).Ok?
    && var data := Respond(l)(sent1).value.data;
    && |data| >= SC_SECRET_LENGTH + BLOCK_SIZE
    && data[..SC_SECRET_LENGTH] == l.salt(i)
    && data[SC_SECRET_LENGTH..SC_SECRET_LENGTH + BLOCK_SIZE] == l.iv(i)
  }

  /** The answer to an opening carries no code. What is assumed is that either it is the card's
      own, and then the authentication gets the card's own reply or one that does not verify;
      or it is not, and then neither side accepts what the other sends under other keys. */
  ghost predicate TrueOpening(l: CardLink, st: Session, sent: seq<ApduCommand>, random: Result<Challenge>)
    requires Keyed(st) && st.publicKey.Some? && st.pairing.Some?
  {
    var (mid, sent1, processed) := Begin(l, st, sent);
    processed.Ok? ==>
      if OwnAnswer(l, st, sent) then random.Ok? ==> TrueReplyNext(l, mid, sent1, AuthRequest(random.value))
      else
        var (after, sent', _) := OpenOver(l, st, sent, random);
        !after.open && CardAfter(l, sent').inbox == CardAfter(l, sent).inbox
  }

  /** What the card makes of an opening request: it executes nothing. */
  lemma CardAnswers(l: CardLink, card: Card, i: nat, st: Session)
    requires st.publicKey.Some? && st.pairing.Some? && |st.publicKey.value| == PUBLIC_KEY_SIZE
    ensures Receive(l, card, i, Frame(OpeningOf(st))) == AnswerOpening(l, card, i, OpeningOf(st))
  {
    hide Frame, ParseFrame;
    FrameRoundTrip(OpeningOf(st));
  }

  lemma OpeningExecutesNothing(l: CardLink, st: Session, sent: seq<ApduCommand>)
    requires Keyed(st) && Paired(l, st)
    ensures CardAfter(l, Begin(l, st, sent).1).inbox == CardAfter(l, sent).inbox
  {
    hide Receive, OpenedBy, Frame, OpenRequest, CardAfter, Respond;
    CardAnswers(l, CardAfter(l, sent), |sent|, st);
    LastCommand(l, sent, OpeningOf(st));
  }

  /** An accepted answer that is the card's own puts both at the same keys and block. */
  lemma OwnAnswerInStep(l: CardLink, st: Session, sent: seq<ApduCommand>)
    requires Keyed(st) && Paired(l, st) && Begin(l, st, sent).2.Ok? && OwnAnswer(l, st, sent)
    ensures
      var (mid, sent1, _) := Begin(l, st, sent);
      InStep(l, mid, sent1) && mid.open && mid.established == st.established && Paired(l, mid)
  {
    hide Receive, Frame, CardAfter;
  }

  /** An opening that begins with an accepted answer goes on with the authentication. */
  lemma OpeningParts(l: CardLink, st: Session, sent: seq<ApduCommand>, random: Result<Challenge>)
    requires LawfulCipher(l.suite.cipher) && Keyed(st) && Paired(l, st)
    ensures
      var (mid, sent1, processed) := Begin(l, st, sent);
      var (after, sent', r) := OpenOver(l, st, sent, random);
      if processed.Err? then (after, sent', r) == (mid, sent1, processed) && !mid.open
      else if random.Err? then (after, sent', r) == (mid, sent1, Err(random.error)) && mid.open
      else
        var (authed, sent2, reply) := SendProtected(l.suite, mid, Respond(l), sent1, AuthRequest(random.value));
        && sent' == sent2 && mid.open
        && after == authed.(established := after.established)
        && (r.Ok? <==> reply.Ok? && reply.value.sw == SW_OK && |reply.value.data| == SC_SECRET_LENGTH)
        && (after.established <==> r.Ok? || st.established)
  {
    hide Respond, CardAfter, ProtectedCommand, Transmit, ProcessOpenResponse, LawfulCipher;
    var (mid, sent1, processed) := Begin(l, st, sent);
    if processed.Ok? && random.Ok? {
      ProtectedFrame(l.suite, mid, 0x80, INS_MUTUALLY_AUTHENTICATE, 0, 0, random.value);
      var cmd := ProtectedCommand(l.suite, mid, 0x80, INS_MUTUALLY_AUTHENTICATE, 0, 0, random.value).1.value;
      assert sent + [OpeningOf(st), cmd] == sent1 + [cmd];
    }
  }

  /** What an opening that succeeds implies on any line at all: the session is open and
      established, and, if the answer was the card's own and no reply but the card's own
      verified, the card executed the authentication, gave the accepted answer to it, and is
      in step. The second half cannot do without its conditions: `OpeningIgnoresChallenge`. */
  lemma OpeningImplies(l: CardLink, st: Session, sent: seq<ApduCommand>, challenge: Challenge)
    requires LawfulCipher(l.suite.cipher) && Keyed(st) && Paired(l, st)
    requires OpenOver(l, st, sent, Ok(challenge)).2.Ok?
    ensures
      var (after, sent', _) := OpenOver(l, st, sent, Ok(challenge));
      var (mid, sent1, _) := Begin(l, st, sent);
      && after.open && after.established
      && (OwnAnswer(l, st, sent) && TrueReplyNext(l, mid, sent1, AuthRequest(challenge)) ==>
            && InStep(l, after, sent')
            && CardAfter(l, sent').inbox == CardAfter(l, sent).inbox + [AuthRequest(challenge).Plain()]
            && ParseResponse(l.app(CardAfter(l, sent').inbox)).Ok?
            && |ParseResponse(l.app(CardAfter(l, sent').inbox)).value.data| == SC_SECRET_LENGTH)
  {
    hide LawfulCipher, CardAfter, Respond, SendProtected, TrueReplyNext, OwnAnswer, OpenOver, Begin, Answered, ParseResponse, AuthRequest;
    OpeningParts(l, st, sent, Ok(challenge));
    OkOpens(l, st, sent, challenge);
    if OwnAnswer(l, st, sent) {
      var (mid, sent1, _) := Begin(l, st, sent);
      OpeningExecutesNothing(l, st, sent);
      OwnAnswerInStep(l, st, sent);
      AuthFits(challenge);
      ExchangeKeepsStep(l, mid, sent1, AuthRequest(challenge));
    }
  }

  lemma AuthFits(challenge: Challenge)
    ensures |AuthRequest(challenge).data| <= 223
  {
  }

  lemma OkOpens(l: CardLink, st: Session, sent: seq<ApduCommand>, challenge: Challenge)
    requires Keyed(st) && OpenOver(l, st, sent, Ok(challenge)).2.Ok?
    ensures OpenOver(l, st, sent, Ok(challenge)).0.open
  {
    hide Respond, ProtectedCommand, Transmit, ProcessOpenResponse;
    var openReply := Respond(l)(sent + [OpeningOf(st)]);
    var mid := OpenedBy(l.suite, st, openReply).0;
    var protecting := ProtectedCommand(l.suite, mid, 0x80, INS_MUTUALLY_AUTHENTICATE, 0, 0, challenge).0;
    OkStaysOpen(l.suite, protecting, Respond(l)(sent + AutoOpenSends(l.suite, st, openReply, Ok(challenge))));
  }

  /** An opening with the paired card, over a line that delivers both commands, at any time,
      succeeds and puts both in step, if the application answers the challenge with 32 bytes. */
  lemma HonestOpening(l: CardLink, st: Session, sent: seq<ApduCommand>, challenge: Challenge, answer: Salt)
    requires LawfulCipher(l.suite.cipher) && Keyed(st) && Paired(l, st)
    requires l.net(|sent|) == Deliver && l.net(|sent| + 1) == Deliver
    requires l.app(CardAfter(l, sent).inbox + [AuthRequest(challenge).Plain()])
      == RawResponse(ApduResponse(answer, SW_OK))
    ensures
      var (after, sent', r) := OpenOver(l, st, sent, Ok(challenge));
      r.Ok? && after.open && after.established && InStep(l, after, sent')
  {
    DeliveredAnswer(l, st, sent);
    hide LawfulCipher, CardAfter, Respond, SendProtected, OwnAnswer, OpenOver, Begin, AuthRequest, ParseResponse;
    hide RawResponse;
    var (mid, sent1, _) := Begin(l, st, sent);
    OwnAnswerInStep(l, st, sent);
    OpeningExecutesNothing(l, st, sent);
    OpeningParts(l, st, sent, Ok(challenge));
    AuthFits(challenge);
    DeliveredExchange(l, mid, sent1, AuthRequest(challenge));
    ResponseRoundTrip([], ApduResponse(answer, SW_OK));
  }

  /** So a new host that agrees a secret with the key of the card and holds the key of one of its
      pairing slots opens the channel: the request names that slot and carries the host's key. */
  lemma FirstOpening(l: CardLink, priv: seq<byte>, pairing: Pairing, challenge: Challenge, answer: Salt)
    requires LawfulCipher(l.suite.cipher) && LawfulAgreement(l.suite)
    requires l.pairings(pairing.index) == Some(pairing.key) && l.net(0) == Deliver && l.net(1) == Deliver
    requires l.app(l.start.inbox + [AuthRequest(challenge).Plain()]) == RawResponse(ApduResponse(answer, SW_OK))
    ensures l.suite.decodePoint(l.suite.publicOf(l.priv)).Some?
    ensures
      var st := AgreeSecret(l.suite, NEW_SESSION, priv, l.suite.publicOf(l.priv)).(pairing := Some(pairing));
      var (after, sent', r) := OpenOver(l, st, [], Ok(challenge));
      && r.Ok? && after.open && after.established && InStep(l, after, sent')
      && sent'[..1] == [Command(0x80, 0x10, pairing.index, 0, l.suite.publicOf(priv))]
  {
    hide LawfulCipher, InStep, ParseResponse, RawResponse, Respond, OpenedBy, ProtectedCommand, Transmit, Paired;
    AgreementPairs(l, NEW_SESSION, priv, pairing);
    var st := AgreeSecret(l.suite, NEW_SESSION, priv, l.suite.publicOf(l.priv)).(pairing := Some(pairing));
    HonestOpening(l, st, [], challenge, answer);
  }

  lemma DeliveredAnswer(l: CardLink, st: Session, sent: seq<ApduCommand>)
    requires Keyed(st) && Paired(l, st) && l.net(|sent|) == Deliver
    ensures OwnAnswer(l, st, sent) && Begin(l, st, sent).2.Ok? && |Begin(l, st, sent).1| == |sent| + 1
  {
    hide Receive, Frame, CardAfter, Respond;
    CardAnswers(l, CardAfter(l, sent), |sent|, st);
    LastCommand(l, sent, OpeningOf(st));
    var salt: Salt := l.salt(|sent|);
    var iv: Block := l.iv(|sent|);
    assert (salt + iv)[..32] == salt && (salt + iv)[32..48] == iv;
  }

  // --- Runs -----------------------------------------------------------------

  datatype HostOp = Send(req: Request) | Open(random: Result<Challenge>)

  function HostStep(l: CardLink, st: Session, sent: seq<ApduCommand>, op: HostOp): (r: (Session, seq<ApduCommand>))
    requires Keyed(st)
    ensures Keyed(r.0)
  {
    match op
    case Send(req) =>
      var (after, sent', _) := SendProtected(l.suite, st, Respond(l), sent, req);
      (after, sent')
    case Open(random) =>
      var (after, sent', _) := OpenOver(l, st, sent, random);
      (after, sent')
  }

  function HostRun(l: CardLink, st: Session, sent: seq<ApduCommand>, ops: seq<HostOp>): (r: (Session, seq<ApduCommand>))
    requires Keyed(st)
    ensures Keyed(r.0)
    decreases |ops|
  {
    if ops == [] then (st, sent)
    else
      var (after, sent') := HostStep(l, st, sent, ops[0]);
      HostRun(l, after, sent', ops[1..])
  }

  /** A request that goes out as it is, because no opening has succeeded yet, is not a protected
      command that the card executes. */
  ghost predicate PlainIsPlain(l: CardLink, st: Session, sent: seq<ApduCommand>, req: Request) {
    !st.established ==>
      var card := CardAfter(l, sent);
      Receive(l, card, |sent|, Frame(Command(0x80, req.ins, req.p1, req.p2, req.data))).0.inbox == card.inbox
  }

  ghost predicate TrueStep(l: CardLink, st: Session, sent: seq<ApduCommand>, op: HostOp)
    requires Keyed(st) && Paired(l, st)
  {
    match op
    case Send(req) => if st.open then TrueReplyNext(l, st, sent, req) else PlainIsPlain(l, st, sent, req)
    case Open(random) => TrueOpening(l, st, sent, random)
  }

  lemma StepKeepsPairing(l: CardLink, st: Session, sent: seq<ApduCommand>, op: HostOp)
    requires Keyed(st) && Paired(l, st)
    ensures Paired(l, HostStep(l, st, sent, op).0)
  {
    hide Respond, ProtectedCommand, Transmit, OpenReply, ProcessOpenResponse;
    match op
    case Send(req) =>
      var (mid, cmd) := ProtectedCommand(l.suite, st, 0x80, req.ins, req.p1, req.p2, req.data);
      ProtectKeepsPairing(l.suite, st, req);
      if cmd.Ok? {
        TransmitKeepsPairing(l.suite, mid, Respond(l)(sent + [cmd.value]));
      }
    case Open(random) =>
      var openReply := Respond(l)(sent + [OpeningOf(st)]);
      var mid := OpenedBy(l.suite, st, openReply).0;
      OpenedKeepsPairing(l.suite, st, openReply);
      if random.Ok? {
        ProtectKeepsPairing(l.suite, mid, AuthRequest(random.value));
        TransmitKeepsPairing(l.suite, ProtectedCommand(l.suite, mid, 0x80, INS_MUTUALLY_AUTHENTICATE, 0, 0, random.value).0,
          Respond(l)(sent + AutoOpenSends(l.suite, st, openReply, random)));
      }
  }

  predicate SamePairing(st: Session, after: Session) {
    (st.secret, st.pairing, st.publicKey) == (after.secret, after.pairing, after.publicKey)
  }

  lemma ProtectKeepsPairing(s: Suite, st: Session, req: Request)
    requires Keyed(st)
    ensures SamePairing(st, ProtectedCommand(s, st, 0x80, req.ins, req.p1, req.p2, req.data).0)
  {
    hide EncryptPadded, NextIv;
  }

  lemma TransmitKeepsPairing(s: Suite, st: Session, outcome: Result<ApduResponse>)
    requires Keyed(st)
    ensures SamePairing(st, Transmit(s, st, outcome).0)
  {
    hide DecryptPadded, NextIv, ParseResponse;
  }

  lemma OpenedKeepsPairing(s: Suite, st: Session, reply: Result<ApduResponse>)
    requires Keyed(st)
    ensures SamePairing(st, OpenedBy(s, st, reply).0)
  {
  }

  ghost predicate TrueSteps(l: CardLink, st: Session, sent: seq<ApduCommand>, ops: seq<HostOp>)
    requires Keyed(st) && Paired(l, st)
    decreases |ops|
  {
    ops == [] || (
      && TrueStep(l, st, sent, ops[0])
      && (StepKeepsPairing(l, st, sent, ops[0]);
          var (after, sent') := HostStep(l, st, sent, ops[0]);
          TrueSteps(l, after, sent', ops[1..])))
  }

  /** The request an operation sends protected, if it does. */
  function Entries(l: CardLink, st: Session, sent: seq<ApduCommand>, op: HostOp): seq<Entry>
    requires Keyed(st) && Paired(l, st)
  {
    match op
    case Send(req) =>
      var (after, sent', r) := SendProtected(l.suite, st, Respond(l), sent, req);
      if !st.open || sent' == sent then [] else [Entry(req, after.open, r)]
    case Open(random) =>
      var (mid, sent1, processed) := Begin(l, st, sent);
      if processed.Err? || random.Err? then []
      else
        var (after, _, r) := SendProtected(l.suite, mid, Respond(l), sent1, AuthRequest(random.value));
        [Entry(AuthRequest(random.value), after.open, r)]
  }

  function Log(l: CardLink, st: Session, sent: seq<ApduCommand>, ops: seq<HostOp>): seq<Entry>
    requires Keyed(st) && Paired(l, st)
    decreases |ops|
  {
    if ops == [] then []
    else
      StepKeepsPairing(l, st, sent, ops[0]);
      var (after, sent') := HostStep(l, st, sent, ops[0]);
      Entries(l, st, sent, ops[0]) + Log(l, after, sent', ops[1..])
  }

  lemma SendKeepsStep(l: CardLink, st: Session, sent: seq<ApduCommand>, req: Request)
    requires LawfulCipher(l.suite.cipher) && InStep(l, st, sent) && Paired(l, st) && TrueStep(l, st, sent, Send(req))
    ensures
      var (after, sent') := HostStep(l, st, sent, Send(req));
      && InStep(l, after, sent')
      && Explains(l.app, CardAfter(l, sent).inbox, Entries(l, st, sent, Send(req)), CardAfter(l, sent').inbox)
  {
    hide CardAfter, Respond, SendProtected, TrueReplyNext, LawfulCipher, PlainIsPlain, Answered, Explains, Paired;
    var (after, sent', r) := SendProtected(l.suite, st, Respond(l), sent, req);
    var before, inbox := CardAfter(l, sent).inbox, CardAfter(l, sent').inbox;
    NoEntry(l.app, before);
    if st.open && |req.data| <= 223 {
      ExchangeKeepsStep(l, st, sent, req);
      SentOne(l, st, sent, req);
      OneEntry(l.app, before, Entry(req, after.open, r), inbox);
    } else if st.open || st.established {
      RefusedAnyway(l, st, sent, req);
    } else {
      PlainExchange(l, st, sent, req);
    }
  }

  lemma NoEntry(app: seq<PlainCommand> -> seq<byte>, inbox: seq<PlainCommand>)
    ensures Explains(app, inbox, [], inbox)
  {
  }

  lemma SentOne(l: CardLink, st: Session, sent: seq<ApduCommand>, req: Request)
    requires LawfulCipher(l.suite.cipher) && Keyed(st) && st.open && |req.data| <= 223
    ensures |SendProtected(l.suite, st, Respond(l), sent, req).1| == |sent| + 1
  {
    hide SendProtected, LawfulCipher, Transmit, Travel, TrueReply, Protects;
    var cmd := SentRequest(l, st, sent, req);
  }

  lemma RefusedAnyway(l: CardLink, st: Session, sent: seq<ApduCommand>, req: Request)
    requires LawfulCipher(l.suite.cipher) && Keyed(st) && (st.open || st.established) && (st.open ==> |req.data| > 223)
    ensures SendProtected(l.suite, st, Respond(l), sent, req).0 == st
    ensures SendProtected(l.suite, st, Respond(l), sent, req).1 == sent
  {
    hide Respond;
    if st.open {
      ProtectedFrame(l.suite, st, 0x80, req.ins, req.p1, req.p2, req.data);
    }
  }

  /** Before the first opening a request goes out as it is, and what comes back is returned as it
      is: on a line that delivers, exactly the card's reply. */
  lemma PlainRequestIsAnswered(l: CardLink, st: Session, sent: seq<ApduCommand>, req: Request)
    requires Keyed(st) && !st.open && !st.established
    ensures
      var cmd := Command(0x80, req.ins, req.p1, req.p2, req.data);
      var (after, sent', r) := SendProtected(l.suite, st, Respond(l), sent, req);
      && sent' == sent + [cmd] && r == Respond(l)(sent') && !after.open
      && (l.net(|sent|) == Deliver ==> r == Ok(Receive(l, CardAfter(l, sent), |sent|, Frame(cmd)).1))
  {
    hide Receive, Frame, CardAfter;
    var cmd := Command(0x80, req.ins, req.p1, req.p2, req.data);
    assert (sent + [cmd])[..|sent|] == sent;
  }

  /** A request that goes out as it is leaves the host closed and executes nothing. */
  lemma PlainExchange(l: CardLink, st: Session, sent: seq<ApduCommand>, req: Request)
    requires Keyed(st) && !st.open && !st.established && PlainIsPlain(l, st, sent, req)
    ensures
      var (after, sent', _) := SendProtected(l.suite, st, Respond(l), sent, req);
      && !after.open && CardAfter(l, sent').inbox == CardAfter(l, sent).inbox
  {
    hide Receive, Frame;
    var cmd := Command(0x80, req.ins, req.p1, req.p2, req.data);
    assert (sent + [cmd])[..|sent|] == sent;
    assert CardAfter(l, sent + [cmd]).inbox == CardAfter(l, sent).inbox;
  }

  /** An opening keeps host and card in step; the card executes at most the authentication. */
  lemma OpeningKeepsStep(l: CardLink, st: Session, sent: seq<ApduCommand>, random: Result<Challenge>)
    requires LawfulCipher(l.suite.cipher) && InStep(l, st, sent) && Paired(l, st) && TrueOpening(l, st, sent, random)
    ensures
      var (after, sent') := HostStep(l, st, sent, Open(random));
      && InStep(l, after, sent')
      && Explains(l.app, CardAfter(l, sent).inbox, Entries(l, st, sent, Open(random)), CardAfter(l, sent').inbox)
  {
    hide CardAfter, LawfulCipher, Explains, OwnAnswer, OpenOver, Begin, AuthRequest, Paired, Entries, SendProtected;
    hide TrueReplyNext, InStep;
    InStepIsKeyed(l, st, sent);
    PairedHas(l, st);
    if Begin(l, st, sent).2.Err? || random.Err? {
      UnfinishedOpening(l, st, sent, random);
    } else if OwnAnswer(l, st, sent) {
      OwnOpening(l, st, sent, random.value);
    } else {
      ForeignOpening(l, st, sent, random.value);
    }
  }

  lemma PairedHas(l: CardLink, st: Session)
    requires Paired(l, st)
    ensures st.publicKey.Some? && st.pairing.Some?
  {
  }

  /** An opening that ends before the authentication. */
  lemma UnfinishedOpening(l: CardLink, st: Session, sent: seq<ApduCommand>, random: Result<Challenge>)
    requires LawfulCipher(l.suite.cipher) && Keyed(st) && Paired(l, st) && TrueOpening(l, st, sent, random)
    requires Begin(l, st, sent).2.Err? || random.Err?
    ensures var (after, sent', _) := OpenOver(l, st, sent, random);
      && InStep(l, after, sent')
      && Explains(l.app, CardAfter(l, sent).inbox, Entries(l, st, sent, Open(random)), CardAfter(l, sent').inbox)
  {
    hide *;
    PairedHas(l, st);
    OpeningExecutesNothing(l, st, sent);
    OpeningParts(l, st, sent, random);
    OpeningEntries(l, st, sent, random);
    NoEntry(l.app, CardAfter(l, sent).inbox);
    var (mid, sent1, processed) := Begin(l, st, sent);
    if processed.Err? {
      ClosedInStep(l, mid, sent1);
    } else {
      TrueOpeningMeans(l, st, sent, random);
      if OwnAnswer(l, st, sent) {
        OwnAnswerInStep(l, st, sent);
      } else {
        ClosedInStep(l, mid, sent1);
      }
    }
  }

  lemma OpeningEntries(l: CardLink, st: Session, sent: seq<ApduCommand>, random: Result<Challenge>)
    requires Keyed(st) && Paired(l, st)
    ensures
      var (mid, sent1, processed) := Begin(l, st, sent);
      if processed.Err? || random.Err? then Entries(l, st, sent, Open(random)) == []
      else
        var (after, _, r) := SendProtected(l.suite, mid, Respond(l), sent1, AuthRequest(random.value));
        Entries(l, st, sent, Open(random)) == [Entry(AuthRequest(random.value), after.open, r)]
  {
    hide Begin, SendProtected, Respond;
  }

  lemma TrueOpeningMeans(l: CardLink, st: Session, sent: seq<ApduCommand>, random: Result<Challenge>)
    requires Keyed(st) && Paired(l, st) && TrueOpening(l, st, sent, random) && Begin(l, st, sent).2.Ok?
    ensures
      var (mid, sent1, _) := Begin(l, st, sent);
      var (after, sent', _) := OpenOver(l, st, sent, random);
      if OwnAnswer(l, st, sent) then random.Ok? ==> TrueReplyNext(l, mid, sent1, AuthRequest(random.value))
      else !after.open && CardAfter(l, sent').inbox == CardAfter(l, sent).inbox
  {
    hide Begin, OpenOver, OwnAnswer, CardAfter, TrueReplyNext;
  }

  lemma ClosedInStep(l: CardLink, st: Session, sent: seq<ApduCommand>)
    requires !st.open
    ensures InStep(l, st, sent)
  {
  }

  lemma StepWhenEstablished(l: CardLink, st: Session, sent: seq<ApduCommand>, established: bool)
    requires InStep(l, st, sent)
    ensures InStep(l, st.(established := established), sent)
  {
    hide CardAfter;
  }

  /** An opening whose answer is the card's own. */
  lemma OwnOpening(l: CardLink, st: Session, sent: seq<ApduCommand>, challenge: Challenge)
    requires LawfulCipher(l.suite.cipher) && Keyed(st) && Paired(l, st) && TrueOpening(l, st, sent, Ok(challenge))
    requires Begin(l, st, sent).2.Ok? && OwnAnswer(l, st, sent)
    ensures var (after, sent', _) := OpenOver(l, st, sent, Ok(challenge));
      && InStep(l, after, sent')
      && Explains(l.app, CardAfter(l, sent).inbox, Entries(l, st, sent, Open(Ok(challenge))), CardAfter(l, sent').inbox)
  {
    hide *;
    PairedHas(l, st);
    OpeningExecutesNothing(l, st, sent);
    OpeningParts(l, st, sent, Ok(challenge));
    OpeningEntries(l, st, sent, Ok(challenge));
    TrueOpeningMeans(l, st, sent, Ok(challenge));
    OwnAnswerInStep(l, st, sent);
    var (mid, sent1, _) := Begin(l, st, sent);
    AuthenticationKeepsStep(l, mid, sent1, challenge);
    var (authed, sent', _) := SendProtected(l.suite, mid, Respond(l), sent1, AuthRequest(challenge));
    StepWhenEstablished(l, authed, sent', OpenOver(l, st, sent, Ok(challenge)).0.established);
  }

  /** An opening whose answer is another. */
  lemma ForeignOpening(l: CardLink, st: Session, sent: seq<ApduCommand>, challenge: Challenge)
    requires LawfulCipher(l.suite.cipher) && Keyed(st) && Paired(l, st) && TrueOpening(l, st, sent, Ok(challenge))
    requires Begin(l, st, sent).2.Ok? && !OwnAnswer(l, st, sent)
    ensures var (after, sent', _) := OpenOver(l, st, sent, Ok(challenge));
      && InStep(l, after, sent')
      && Explains(l.app, CardAfter(l, sent).inbox, Entries(l, st, sent, Open(Ok(challenge))), CardAfter(l, sent').inbox)
  {
    hide *;
    PairedHas(l, st);
    OpeningParts(l, st, sent, Ok(challenge));
    OpeningEntries(l, st, sent, Ok(challenge));
    TrueOpeningMeans(l, st, sent, Ok(challenge));
    var (mid, sent1, _) := Begin(l, st, sent);
    var (after, sent', r) := SendProtected(l.suite, mid, Respond(l), sent1, AuthRequest(challenge));
    OneEntry(l.app, CardAfter(l, sent).inbox, Entry(AuthRequest(challenge), after.open, r), CardAfter(l, sent').inbox);
    ClosedInStep(l, OpenOver(l, st, sent, Ok(challenge)).0, sent');
  }

  lemma AuthenticationKeepsStep(l: CardLink, mid: Session, sent1: seq<ApduCommand>, challenge: Challenge)
    requires LawfulCipher(l.suite.cipher) && InStep(l, mid, sent1) && mid.open
    requires TrueReplyNext(l, mid, sent1, AuthRequest(challenge))
    ensures
      var (after, sent', r) := SendProtected(l.suite, mid, Respond(l), sent1, AuthRequest(challenge));
      && InStep(l, after, sent')
      && Explains(l.app, CardAfter(l, sent1).inbox, [Entry(AuthRequest(challenge), after.open, r)],
                  CardAfter(l, sent').inbox)
  {
    hide CardAfter, Respond, SendProtected, LawfulCipher, Explains, AuthRequest, TrueReplyNext, Answered;
    AuthFits(challenge);
    ExchangeKeepsStep(l, mid, sent1, AuthRequest(challenge));
    var (after, sent', r) := SendProtected(l.suite, mid, Respond(l), sent1, AuthRequest(challenge));
    OneEntry(l.app, CardAfter(l, sent1).inbox, Entry(AuthRequest(challenge), after.open, r), CardAfter(l, sent').inbox);
  }

  lemma StepKeepsStep(l: CardLink, st: Session, sent: seq<ApduCommand>, op: HostOp)
    requires LawfulCipher(l.suite.cipher) && InStep(l, st, sent) && Paired(l, st) && TrueStep(l, st, sent, op)
    ensures
      var (after, sent') := HostStep(l, st, sent, op);
      && InStep(l, after, sent') && Paired(l, after)
      && Explains(l.app, CardAfter(l, sent).inbox, Entries(l, st, sent, op), CardAfter(l, sent').inbox)
  {
    hide CardAfter, InStep, LawfulCipher, HostStep, Entries, Explains, TrueReplyNext, PlainIsPlain, TrueOpening, Paired;
    InStepIsKeyed(l, st, sent);
    StepKeepsPairing(l, st, sent, op);
    match op
    case Send(req) => SendKeepsStep(l, st, sent, req);
    case Open(random) => OpeningKeepsStep(l, st, sent, random);
  }

  /** Lockstep over every run of requests and openings in which the card's own replies are the
      only ones that verify: host and card stay in step, the card executes the requests and
      authentications that were sent protected, in order and at most once each, across
      sessions, and those after which the host was still open it executed and answered. */
  lemma {:induction false} LockstepAcrossSessions(l: CardLink, st: Session, sent: seq<ApduCommand>, ops: seq<HostOp>)
    requires LawfulCipher(l.suite.cipher) && InStep(l, st, sent) && Paired(l, st) && TrueSteps(l, st, sent, ops)
    ensures
      var (after, sent') := HostRun(l, st, sent, ops);
      && InStep(l, after, sent')
      && Explains(l.app, CardAfter(l, sent).inbox, Log(l, st, sent, ops), CardAfter(l, sent').inbox)
    decreases |ops|
  {
    InStepIsKeyed(l, st, sent);
    if ops != [] {
      hide CardAfter, InStep, LawfulCipher, HostStep, TrueStep, Entries, Explains, Paired, Keyed;
      var (mid, sent1) := HostStep(l, st, sent, ops[0]);
      StepKeepsStep(l, st, sent, ops[0]);
      InStepIsKeyed(l, mid, sent1);
      LockstepAcrossSessions(l, mid, sent1, ops[1..]);
      AtMostOneEntry(l, st, sent, ops[0]);
      ExplainsThenMore(l.app, CardAfter(l, sent).inbox, Entries(l, st, sent, ops[0]), CardAfter(l, sent1).inbox,
        Log(l, mid, sent1, ops[1..]), CardAfter(l, HostRun(l, mid, sent1, ops[1..]).1).inbox);
    }
  }

  lemma AtMostOneEntry(l: CardLink, st: Session, sent: seq<ApduCommand>, op: HostOp)
    requires Keyed(st) && Paired(l, st)
    ensures |Entries(l, st, sent, op)| <= 1
  {
    hide SendProtected, Begin;
  }

  /** A new session with the card's secret and pairing is in step with it, so that whole runs
      are covered. */
  lemma NewSessionInStep(l: CardLink, st: Session)
    requires !st.open
    ensures InStep(l, st, [])
  {
  }
}
