/** Runs of a version 2 host that sends requests and opens the channel, in any order and as
    often as it likes, from a new session on. */
module SessionsV2 {
  import opened Bytes
  import opened Apdu
  import opened SecureChannelV2
  import opened Link
  import opened LockstepV2
  import opened ReplaysV2

  datatype HostOp = Send(req: Request) | Open(random: Result<Draw>)

  function HostStep(l: CardLink, st: Session, sent: seq<ApduCommand>, op: HostOp): (Session, seq<ApduCommand>) {
    match op
    case Send(req) =>
      var (after, sent', _) := SendProtected(l.suite, st, Respond(l), sent, req);
      (after, sent')
    case Open(random) =>
      var (after, sent', _) := OpenOver(l, st, sent, random);
      (after, sent')
  }

  function HostRun(l: CardLink, st: Session, sent: seq<ApduCommand>, ops: seq<HostOp>): (Session, seq<ApduCommand>)
    decreases |ops|
  {
    if ops == [] then (st, sent)
    else
      var (after, sent') := HostStep(l, st, sent, ops[0]);
      HostRun(l, after, sent', ops[1..])
  }

  ghost predicate UnforgedStep(l: CardLink, st: Session, sent: seq<ApduCommand>, op: HostOp) {
    match op
    case Send(req) => if st.open then UnforgedNext(l, st, sent, req) else PlainIsPlain(l, st, sent, req)
    case Open(random) => UnforgedOpening(l, st, sent, random)
  }

  /** A request that goes out as it is, because no opening has succeeded yet, is not a protected
      command that the card executes. */
  ghost predicate PlainIsPlain(l: CardLink, st: Session, sent: seq<ApduCommand>, req: Request) {
    !st.established ==>
      var card := CardAfter(l, sent);
      Receive(l, card, |sent|, Frame(Command(0x80, req.ins, req.p1, req.p2, req.data))).0.inbox == card.inbox
  }

  ghost predicate UnforgedSteps(l: CardLink, st: Session, sent: seq<ApduCommand>, ops: seq<HostOp>)
    decreases |ops|
  {
    ops == [] || (
      && UnforgedStep(l, st, sent, ops[0])
      && var (after, sent') := HostStep(l, st, sent, ops[0]);
      UnforgedSteps(l, after, sent', ops[1..]))
  }

  // --- What the host knows --------------------------------------------------

  function Entries(l: CardLink, st: Session, sent: seq<ApduCommand>, op: HostOp): seq<Entry> {
    match op
    case Send(req) =>
      var (after, sent', r) := SendProtected(l.suite, st, Respond(l), sent, req);
      if !st.open || sent' == sent then [] else [Entry(req, after.open, r)]
    case Open(_) => []
  }

  /** The requests of a run that were sent protected, in order. */
  function Log(l: CardLink, st: Session, sent: seq<ApduCommand>, ops: seq<HostOp>): seq<Entry>
    decreases |ops|
  {
    if ops == [] then []
    else
      var (after, sent') := HostStep(l, st, sent, ops[0]);
      Entries(l, st, sent, ops[0]) + Log(l, after, sent', ops[1..])
  }

  lemma SendKeepsStep(l: CardLink, st: Session, sent: seq<ApduCommand>, req: Request)
    requires LawfulAead(l.suite) && InStep(l, st, sent) && UnforgedStep(l, st, sent, Send(req))
    ensures
      var (after, sent') := HostStep(l, st, sent, Send(req));
      && InStep(l, after, sent')
      && Explains(l.app, CardAfter(l, sent).inbox, Entries(l, st, sent, Send(req)), CardAfter(l, sent').inbox)
  {
    hide CardAfter, Respond, ProtectedCommand, Transmit, UnforgedNext, LawfulAead, PlainIsPlain;
    if st.open && |req.data| <= 255 {
      ExchangeKeepsStep(l, st, sent, req);
    } else if st.open || st.established {
      RefusedRequest(l.suite, st, Respond(l), sent, req);
    } else {
      PlainExchange(l, st, sent, req);
    }
  }

  /** Before the first opening a request goes out as it is, and what comes back is returned as it
      is: on a line that delivers, exactly the card's reply. */
  lemma PlainRequestIsAnswered(l: CardLink, st: Session, sent: seq<ApduCommand>, req: Request)
    requires !st.open && !st.established
    ensures
      var cmd := Command(0x80, req.ins, req.p1, req.p2, req.data);
      var (after, sent', r) := SendProtected(l.suite, st, Respond(l), sent, req);
      && sent' == sent + [cmd] && r == Respond(l)(sent') && !after.open
      && (l.net(|sent|) == Deliver ==> r == Ok(Receive(l, CardAfter(l, sent), |sent|, Frame(cmd)).1))
  {
    hide Receive, Frame, CardAfter;
    var cmd := Command(0x80, req.ins, req.p1, req.p2, req.data);
    assert (sent + [cmd])[..|sent|] == sent;
  }

  /** A request that goes out as it is leaves the host closed and executes nothing. */
  lemma PlainExchange(l: CardLink, st: Session, sent: seq<ApduCommand>, req: Request)
    requires !st.open && !st.established && PlainIsPlain(l, st, sent, req)
    ensures
      var (after, sent', _) := SendProtected(l.suite, st, Respond(l), sent, req);
      && !after.open && after.pending.None? && !after.established
      && CardAfter(l, sent').inbox == CardAfter(l, sent).inbox
  {
    hide Receive, Transmit, Frame;
    var cmd := Command(0x80, req.ins, req.p1, req.p2, req.data);
    assert (sent + [cmd])[..|sent|] == sent;
    assert CardAfter(l, sent + [cmd]).inbox == CardAfter(l, sent).inbox;
    ClosedTransmit(l.suite, st, Respond(l)(sent + [cmd]));
  }

  lemma ClosedTransmit(s: Suite, st: Session, outcome: Result<ApduResponse>)
    requires !st.open
    ensures var after := Transmit(s, st, outcome).0;
      !after.open && after.pending.None? && after.established == st.established
  {
  }

  lemma StepKeepsStep(l: CardLink, st: Session, sent: seq<ApduCommand>, op: HostOp)
    requires LawfulAead(l.suite) && LawfulHandshake(l.suite, l.sign)
    requires InStep(l, st, sent) && UnforgedStep(l, st, sent, op)
    ensures
      var (after, sent') := HostStep(l, st, sent, op);
      && InStep(l, after, sent')
      && Explains(l.app, CardAfter(l, sent).inbox, Entries(l, st, sent, op), CardAfter(l, sent').inbox)
  {
    hide CardAfter, Respond, InStep, LawfulAead, LawfulHandshake, SendProtected, OpenOver, UnforgedNext, UnforgedOpening, PlainIsPlain;
    match op
    case Send(req) => SendKeepsStep(l, st, sent, req);
    case Open(random) => OpeningKeepsStep(l, st, sent, random);
  }

  /** Lockstep over every run of requests and openings: host and card stay in step, the card
      executes the requests that were sent protected, in order and at most once each, across
      sessions, and those after which the host was still open it executed and answered. */
  lemma {:induction false} LockstepAcrossSessions(l: CardLink, st: Session, sent: seq<ApduCommand>, ops: seq<HostOp>)
    requires LawfulAead(l.suite) && LawfulHandshake(l.suite, l.sign)
    requires InStep(l, st, sent) && UnforgedSteps(l, st, sent, ops)
    ensures
      var (after, sent') := HostRun(l, st, sent, ops);
      && InStep(l, after, sent')
      && Explains(l.app, CardAfter(l, sent).inbox, Log(l, st, sent, ops), CardAfter(l, sent').inbox)
    decreases |ops|
  {
    if ops != [] {
      hide CardAfter, InStep, LawfulAead, LawfulHandshake, HostStep, UnforgedStep, Entries, Explains;
      var (mid, sent1) := HostStep(l, st, sent, ops[0]);
      StepKeepsStep(l, st, sent, ops[0]);
      LockstepAcrossSessions(l, mid, sent1, ops[1..]);
      AtMostOneEntry(l, st, sent, ops[0]);
      ExplainsThenMore(l.app, CardAfter(l, sent).inbox, Entries(l, st, sent, ops[0]), CardAfter(l, sent1).inbox,
        Log(l, mid, sent1, ops[1..]), CardAfter(l, HostRun(l, mid, sent1, ops[1..]).1).inbox);
    }
  }

  lemma AtMostOneEntry(l: CardLink, st: Session, sent: seq<ApduCommand>, op: HostOp)
    ensures |Entries(l, st, sent, op)| <= 1
  {
    hide SendProtected;
  }

  /** A new session is in step with any card, so that whole runs are covered. */
  lemma NewSessionInStep(l: CardLink)
    ensures InStep(l, NEW_SESSION, []) && InStep(l, NEW_SESSION.(cardIdent := Some(l.suite.publicOf(l.identity))), [])
  {
  }

  // --- A line that replays --------------------------------------------------

  /** In place of a reply the line puts nothing but an error status or the data of an earlier
      reply. */
  ghost predicate ReplayedNext(l: CardLink, sent: seq<ApduCommand>) {
    match l.net(|sent|)
    case Substitute(_, reply) =>
      reply.sw == SW_OK ==> exists i: nat :: Executed(l, sent, i) && reply.data == CardReply(l, sent, i).data
    case _ => true
  }

  /** A run on a line that replays at will, with openings unforged. */
  ghost predicate ReplayedSteps(l: CardLink, st: Session, sent: seq<ApduCommand>, ops: seq<HostOp>)
    decreases |ops|
  {
    ops == [] || (
      && (match ops[0]
          case Send(req) =>
            if st.open then ReplayedNext(l, sent) && FreshKey(l, sent) && RejectsEarlier(l, sent)
            else PlainIsPlain(l, st, sent, req)
          case Open(random) => UnforgedOpening(l, st, sent, random))
      && var (after, sent') := HostStep(l, st, sent, ops[0]);
      ReplayedSteps(l, after, sent', ops[1..]))
  }

  lemma ReplayIsUnforged(l: CardLink, st: Session, sent: seq<ApduCommand>, req: Request)
    requires InStep(l, st, sent) && st.open
    requires ReplayedNext(l, sent) && FreshKey(l, sent) && RejectsEarlier(l, sent)
    ensures UnforgedNext(l, st, sent, req)
  {
    hide FreshKey, RejectsEarlier, CardReply, CardAfter, Inner, Increment;
    if |req.data| <= 255 && l.net(|sent|).Substitute? && l.net(|sent|).reply.sw == SW_OK {
      var i: nat :| Executed(l, sent, i) && l.net(|sent|).reply.data == CardReply(l, sent, i).data;
      ReplayedReplyCloses(l, st, sent, req, i);
    }
  }

  /** A line that replays earlier replies at will forges nothing, so that lockstep holds on it. */
  lemma {:induction false} ReplaysForgeNothing(l: CardLink, st: Session, sent: seq<ApduCommand>, ops: seq<HostOp>)
    requires LawfulAead(l.suite) && LawfulHandshake(l.suite, l.sign)
    requires InStep(l, st, sent) && ReplayedSteps(l, st, sent, ops)
    ensures UnforgedSteps(l, st, sent, ops)
    decreases |ops|
  {
    if ops != [] {
      hide CardAfter, InStep, LawfulAead, LawfulHandshake, HostStep, Entries, Explains;
      hide UnforgedNext, UnforgedOpening, ReplayedNext, FreshKey, RejectsEarlier, PlainIsPlain;
      var (mid, sent1) := HostStep(l, st, sent, ops[0]);
      if ops[0].Send? && st.open {
        ReplayIsUnforged(l, st, sent, ops[0].req);
      }
      StepKeepsStep(l, st, sent, ops[0]);
      ReplaysForgeNothing(l, mid, sent1, ops[1..]);
    }
  }
}
