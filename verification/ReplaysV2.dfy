/** Earlier replies of the card, put in place of the answer to a later command: the card's
    counter never returns to one of them, so that the host closes. */
module ReplaysV2 {
  import opened Bytes
  import opened Apdu
  import opened SecureChannelV2
  import opened Link
  import opened LockstepV2
  import opened SuiteInstances

  /** The card executed the i-th command of a history, and sealed a reply to it. */
  ghost predicate Executed(l: CardLink, sent: seq<ApduCommand>, i: nat) {
    i < |sent| && CardAfter(l, sent[..i + 1]).inbox != CardAfter(l, sent[..i]).inbox
  }

  /** The card's own reply to the i-th command of a history. */
  function CardReply(l: CardLink, sent: seq<ApduCommand>, i: nat): ApduResponse
    requires i < |sent|
  {
    OwnReply(l, sent[..i + 1])
  }

  // --- The card's counter ---------------------------------------------------

  /** From one state of the card to a later one that is open and of the same session: the keys
      are the same, and the counter rises with what is executed. */
  ghost predicate Counts(before: Card, after: Card) {
    && before.handshakes <= after.handshakes
    && |before.inbox| <= |after.inbox|
    && (before.handshakes == after.handshakes && after.open ==>
          && before.open
          && before.keyH2c == after.keyH2c && before.keyC2h == after.keyC2h
          && BigEndian(before.nonce) - |before.inbox| == BigEndian(after.nonce) - |after.inbox|)
  }

  lemma ReceiveCounts(l: CardLink, card: Card, i: nat, frame: seq<byte>)
    ensures Counts(card, Receive(l, card, i, frame).0)
    ensures
      var (after, reply) := Receive(l, card, i, frame);
      after.inbox != card.inbox ==>
        && |after.inbox| == |card.inbox| + 1 && after.handshakes == card.handshakes
        && reply.data == l.suite.seal(card.keyC2h, card.nonce, l.app(after.inbox))
  {
    hide BigEndian, Increment, AtLimit, ParseFrame, ParseInner;
    IncrementCounts(card.nonce);
  }

  /** What one command of a history does to the card. */
  lemma CommandCounts(l: CardLink, sent: seq<ApduCommand>, i: nat)
    requires i < |sent|
    ensures
      var before, after := CardAfter(l, sent[..i]), CardAfter(l, sent[..i + 1]);
      && Counts(before, after)
      && (Executed(l, sent, i) ==>
            && |after.inbox| == |before.inbox| + 1 && after.handshakes == before.handshakes
            && CardReply(l, sent, i).data == l.suite.seal(before.keyC2h, before.nonce, l.app(after.inbox)))
  {
    hide Receive, BigEndian;
    assert sent[..i + 1][..i] == sent[..i];
    ReceiveCounts(l, CardAfter(l, sent[..i]), i, Frame(sent[i]));
  }

  /** Over any stretch of a history, the card counts. */
  lemma {:induction false} HistoryCounts(l: CardLink, sent: seq<ApduCommand>, i: nat, j: nat)
    requires i <= j <= |sent|
    ensures Counts(CardAfter(l, sent[..i]), CardAfter(l, sent[..j]))
    decreases j
  {
    hide CardAfter, CardReply, BigEndian;
    if i < j {
      HistoryCounts(l, sent, i, j - 1);
      CommandCounts(l, sent, j - 1);
    }
  }

  /** A reply the card sealed earlier in the session of now was sealed under a lower counter. */
  lemma EarlierCounterIsLower(l: CardLink, sent: seq<ApduCommand>, i: nat)
    requires Executed(l, sent, i)
    requires CardAfter(l, sent).open && CardAfter(l, sent[..i]).handshakes == CardAfter(l, sent).handshakes
    ensures BigEndian(CardAfter(l, sent[..i]).nonce) < BigEndian(CardAfter(l, sent).nonce)
  {
    hide CardAfter, CardReply, BigEndian;
    CommandCounts(l, sent, i);
    HistoryCounts(l, sent, i + 1, |sent|);
    assert sent[..|sent|] == sent;
  }

  // --- Replays --------------------------------------------------------------

  /** No session of the card has the key of an earlier one that sealed a reply. */
  ghost predicate FreshKey(l: CardLink, sent: seq<ApduCommand>) {
    var now := CardAfter(l, sent);
    forall i: nat :: Executed(l, sent, i) && CardAfter(l, sent[..i]).handshakes != now.handshakes
      ==> CardAfter(l, sent[..i]).keyC2h != now.keyC2h
  }

  /** The replies that the card has sealed so far under another key or nonce are rejected under
      its key and nonce of now. */
  ghost predicate RejectsEarlier(l: CardLink, sent: seq<ApduCommand>) {
    var now := CardAfter(l, sent);
    forall i: nat :: Executed(l, sent, i)
      && (CardAfter(l, sent[..i]).keyC2h, CardAfter(l, sent[..i]).nonce) != (now.keyC2h, now.nonce)
      ==> l.suite.unseal(now.keyC2h, now.nonce, CardReply(l, sent, i).data) == None
  }

  /** Answering a command with the sealed data of an earlier reply of the card forges nothing,
      and closes the host. */
  lemma ReplayedReplyCloses(l: CardLink, st: Session, sent: seq<ApduCommand>, req: Request, i: nat)
    requires InStep(l, st, sent) && st.open && |req.data| <= 255
    requires FreshKey(l, sent) && RejectsEarlier(l, sent) && Executed(l, sent, i)
    requires l.net(|sent|).Substitute? && l.net(|sent|).reply.data == CardReply(l, sent, i).data
    ensures UnforgedNext(l, st, sent, req)
    ensures var (after, _, r) := SendProtected(l.suite, st, Respond(l), sent, req);
      var reply := l.net(|sent|).reply;
      && !after.open
      && (r == if reply.sw != SW_OK || AtLimit(st.nonce) then Ok(reply) else Err(Protocol))
  {
    EarlierIsRejected(l, sent, i);
    hide Transmit, ProtectedCommand, FreshKey, RejectsEarlier, Executed, CardAfter, CardReply, Respond, InStep, AtLimit;
    hide SendProtected, InFlight;
    var mid := SubstitutedExchange(l, st, sent, req);
    RejectedCloses(l.suite, CardAfter(l, sent), mid, l.net(|sent|).reply);
  }

  /** An exchange on a line that puts something else in place of the reply. */
  lemma SubstitutedExchange(l: CardLink, st: Session, sent: seq<ApduCommand>, req: Request) returns (mid: Session)
    requires InStep(l, st, sent) && st.open && |req.data| <= 255 && l.net(|sent|).Substitute?
    ensures InFlight(CardAfter(l, sent), mid) && CardAfter(l, sent).nonce == st.nonce
    ensures
      var (after, _, r) := SendProtected(l.suite, st, Respond(l), sent, req);
      (after, r) == Transmit(l.suite, mid, Ok(l.net(|sent|).reply))
  {
    hide Receive, Transmit, CardAfter, AtLimit, Increment, Inner, Frame;
    var cmd;
    mid, cmd := ProtectedCommand(l.suite, st, 0x80, req.ins, req.p1, req.p2, req.data).0,
      ProtectedCommand(l.suite, st, 0x80, req.ins, req.p1, req.p2, req.data).1;
    assert (sent + [cmd.value])[..|sent|] == sent;
  }

  /** What the host makes of a reply that is rejected while its command is in flight. */
  lemma RejectedCloses(s: Suite, card: Card, mid: Session, reply: ApduResponse)
    requires InFlight(card, mid) && s.unseal(card.keyC2h, card.nonce, reply.data) == None
    ensures
      var (after, r) := Transmit(s, mid, Ok(reply));
      && !after.open
      && (r == if reply.sw != SW_OK || AtLimit(card.nonce) then Ok(reply) else Err(Protocol))
  {
    hide Increment, AtLimit;
  }

  lemma EarlierIsRejected(l: CardLink, sent: seq<ApduCommand>, i: nat)
    requires FreshKey(l, sent) && RejectsEarlier(l, sent) && Executed(l, sent, i) && CardAfter(l, sent).open
    ensures
      var now := CardAfter(l, sent);
      l.suite.unseal(now.keyC2h, now.nonce, CardReply(l, sent, i).data) == None
  {
    hide CardAfter, CardReply, BigEndian;
    if CardAfter(l, sent[..i]).handshakes == CardAfter(l, sent).handshakes {
      EarlierCounterIsLower(l, sent, i);
    }
  }

  // --- An instance ----------------------------------------------------------

  /** A card whose key and counter are small. */
  predicate SmallCard(card: Card) {
    |card.keyC2h| == 32 && Small(card.keyC2h) && Small(card.nonce)
  }

  /** With the tagging suite, the replies of other keys and nonces are rejected, as long as keys
      and counters are small. */
  lemma TagSuiteRejectsEarlier(l: CardLink, sent: seq<ApduCommand>)
    requires l.suite == TAG_SUITE && CardAfter(l, sent).open && FreshKey(l, sent)
    requires forall i :: 0 <= i <= |sent| ==> SmallCard(CardAfter(l, sent[..i]))
    ensures RejectsEarlier(l, sent)
  {
    hide CardAfter, CardReply, BigEndian;
    var now := CardAfter(l, sent);
    assert sent[..|sent|] == sent;
    forall i: nat | Executed(l, sent, i)
      ensures l.suite.unseal(now.keyC2h, now.nonce, CardReply(l, sent, i).data) == None
    {
      var card := CardAfter(l, sent[..i]);
      CommandCounts(l, sent, i);
      if card.handshakes == now.handshakes {
        EarlierCounterIsLower(l, sent, i);
      } else if BigEndian(card.keyC2h) == BigEndian(now.keyC2h) {
        BigEndianInjective(card.keyC2h, now.keyC2h);
      }
      TagRejects(now.keyC2h, now.nonce, card.keyC2h, card.nonce, l.app(CardAfter(l, sent[..i + 1]).inbox));
    }
  }

  const FIRST_CARD := Card(Zeros(32), Zeros(32), Zeros(CCM_NONCE_SIZE), true, [], 0)

  /** The history of a host that sends a request to this card and then opens a new session. */
  function RequestAndOpening(req: Request, e: Draw): seq<ApduCommand>
    requires |req.data| <= 255
  {
    var sealed := TAG_SUITE.seal(Zeros(32), Zeros(CCM_NONCE_SIZE), Inner(0x80, req.ins, req.p1, req.p2, req.data));
    [Command(0x80, INS_SECURED_APDU, 0, 0, sealed), OpenRequest(TAG_SUITE, e)]
  }

  /** All that is assumed for a replaying line holds together, after a history in which the card
      has executed a request in one session and has then opened another: the laws of both parts
      of the suite, fresh keys, and the rejection of earlier replies. */
  lemma AssumptionsHoldTogether(l: CardLink, req: Request, e: Draw)
    requires l.suite == TAG_SUITE && l.sign == TOY_SIGN && l.start == FIRST_CARD && |req.data| <= 242
    requires l.net(0) == Deliver && l.net(1) == Deliver
    requires Small(e.salt) && e.salt != Zeros(32)
    ensures
      var sent := RequestAndOpening(req, e);
      && LawfulAead(l.suite) && LawfulHandshake(l.suite, l.sign)
      && Executed(l, sent, 0) && CardAfter(l, sent).open
      && CardAfter(l, sent[..0]).handshakes != CardAfter(l, sent).handshakes
      && FreshKey(l, sent) && RejectsEarlier(l, sent)
  {
    TagSuiteIsLawful();
    var sent := RequestAndOpening(req, e);
    ThreeCards(l, req, e);
    hide CardAfter, CardReply, BigEndian, Increment, LawfulAead, LawfulHandshake, RequestAndOpening;
    assert sent[..|sent|] == sent;
    assert Executed(l, sent, 0);
    forall i: nat | Executed(l, sent, i)
      ensures i == 0
    {
    }
    forall i | 0 <= i <= |sent|
      ensures SmallCard(CardAfter(l, sent[..i]))
    {
      assert i == 0 || i == 1 || i == 2;
    }
    TagSuiteRejectsEarlier(l, sent);
  }

  /** The card at the beginning, after the request, and after the opening. */
  lemma ThreeCards(l: CardLink, req: Request, e: Draw)
    requires l.suite == TAG_SUITE && l.sign == TOY_SIGN && l.start == FIRST_CARD && |req.data| <= 242
    requires l.net(0) == Deliver && l.net(1) == Deliver && LawfulAead(l.suite) && LawfulHandshake(l.suite, l.sign)
    requires Small(e.salt)
    ensures
      var sent := RequestAndOpening(req, e);
      var cards := seq(3, i requires 0 <= i < 3 => CardAfter(l, sent[..i]));
      && |sent| == 2 && cards[0] == FIRST_CARD
      && cards[1].inbox == [req.Plain()] && cards[1].keyC2h == Zeros(32) && cards[1].handshakes == 0
      && cards[2] == Card(e.salt, e.salt, Zeros(CCM_NONCE_SIZE), true, [req.Plain()], 1)
      && SmallCard(cards[0]) && SmallCard(cards[1]) && SmallCard(cards[2])
  {
    var sent := RequestAndOpening(req, e);
    CardReceives(l, FIRST_CARD, 0, req);
    CardAnswers(l, Receive(l, FIRST_CARD, 0, Frame(sent[0])).0, 1, e);
    DeliveredCommand(l, sent, 0);
    DeliveredCommand(l, sent, 1);
    SmallCounters();
    assert sent[..0] == [];
    hide Receive, Frame, Increment, BigEndian, LawfulAead, LawfulHandshake, AtLimit, Inner;
    assert CardAfter(l, []) == FIRST_CARD;
    hide CardAfter;
  }

  lemma SmallCounters()
    ensures Small(Zeros(32)) && Small(Zeros(CCM_NONCE_SIZE)) && Small(Increment(Zeros(CCM_NONCE_SIZE)))
  {
    BigEndianZeros(32);
    BigEndianZeros(CCM_NONCE_SIZE);
    IncrementCounts(Zeros(CCM_NONCE_SIZE));
  }

  lemma DeliveredCommand(l: CardLink, sent: seq<ApduCommand>, i: nat)
    requires i < |sent| && l.net(i) == Deliver
    ensures CardAfter(l, sent[..i + 1]) == Receive(l, CardAfter(l, sent[..i]), i, Frame(sent[i])).0
  {
    hide Receive, Frame;
    assert sent[..i + 1][..i] == sent[..i];
  }
}
