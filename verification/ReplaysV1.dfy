/** What the code of a version 1 reply does not cover: the command it answers, and the block
    before it. Exactly when an earlier reply of the session is accepted in place of the answer
    to a later command, and what follows from it. */
module ReplaysV1 {
  import opened Bytes
  import opened Apdu
  import opened Cbc
  import opened SecureChannelV1
  import opened SafetyV1
  import opened Link
  import opened LockstepV1

  // --- The replies of a card ------------------------------------------------

  /** The card executed the i-th command of a history, and sealed a reply to it. */
  ghost predicate Executed(l: CardLink, sent: seq<ApduCommand>, i: nat) {
    i < |sent| && CardAfter(l, sent[..i + 1]).inbox != CardAfter(l, sent[..i]).inbox
  }

  /** From one state of the card to a later one that is open and of the same session. */
  ghost predicate SameSession(before: Card, after: Card) {
    && before.handshakes <= after.handshakes
    && (before.handshakes == after.handshakes && after.open ==>
          before.open && before.encKey == after.encKey && before.macKey == after.macKey)
  }

  lemma ReceiveKeepsKeys(l: CardLink, card: Card, i: nat, cmd: ApduCommand)
    ensures
      var (after, reply) := Receive(l, card, i, Frame(cmd));
      && SameSession(card, after)
      && (after.inbox != card.inbox ==>
            && after.handshakes == card.handshakes && |cmd.data| >= BLOCK_SIZE && after.open
            && reply == SealReply(l.suite, card, cmd.data[..BLOCK_SIZE], l.app(after.inbox)).1)
  {
    hide Frame, ParseFrame, SealReply, DecryptPadded, NextIv;
    FrameRoundTrip(cmd);
  }

  /** What one command of a history does to the card. */
  lemma CommandKeepsKeys(l: CardLink, sent: seq<ApduCommand>, i: nat)
    requires i < |sent|
    ensures SameSession(CardAfter(l, sent[..i]), CardAfter(l, sent[..i + 1]))
    ensures Executed(l, sent, i) ==>
      var card, inbox := CardAfter(l, sent[..i]), CardAfter(l, sent[..i + 1]).inbox;
      && CardAfter(l, sent[..i + 1]).handshakes == card.handshakes && |sent[i].data| >= BLOCK_SIZE
      && OwnReply(l, sent[..i + 1]) == SealReply(l.suite, card, sent[i].data[..BLOCK_SIZE], l.app(inbox)).1
  {
    hide Receive, Frame, SealReply;
    assert sent[..i + 1][..i] == sent[..i];
    ReceiveKeepsKeys(l, CardAfter(l, sent[..i]), i, sent[i]);
  }

  lemma {:induction false} HistoryKeepsKeys(l: CardLink, sent: seq<ApduCommand>, i: nat, j: nat)
    requires i <= j <= |sent|
    ensures SameSession(CardAfter(l, sent[..i]), CardAfter(l, sent[..j]))
    decreases j
  {
    hide CardAfter, OwnReply, SealReply;
    if i < j {
      HistoryKeepsKeys(l, sent, i, j - 1);
      CommandKeepsKeys(l, sent, j - 1);
    }
  }

  /** The card sealed a reply to the i-th command in the session it is in now. */
  ghost predicate SealedBefore(l: CardLink, sent: seq<ApduCommand>, i: nat) {
    Executed(l, sent, i) && CardAfter(l, sent[..i]).handshakes == CardAfter(l, sent).handshakes
  }

  /** What the application answered to the i-th command. */
  function Answer(l: CardLink, sent: seq<ApduCommand>, i: nat): seq<byte>
    requires i < |sent|
  {
    l.app(CardAfter(l, sent[..i + 1]).inbox)
  }

  /** The code of a protected command. */
  function CodeOf(cmd: ApduCommand): Block {
    if |cmd.data| < BLOCK_SIZE then Zeros(16) else cmd.data[..BLOCK_SIZE]
  }

  /** Such a reply is sealed under the keys of now. */
  lemma EarlierReply(l: CardLink, sent: seq<ApduCommand>, i: nat)
    requires SealedBefore(l, sent, i) && CardAfter(l, sent).open
    ensures OwnReply(l, sent[..i + 1])
      == SealReply(l.suite, CardAfter(l, sent), CodeOf(sent[i]), Answer(l, sent, i)).1
  {
    hide CardAfter, OwnReply, SealReply;
    HistoryKeepsKeys(l, sent, i, |sent|);
    CommandKeepsKeys(l, sent, i);
    assert sent[..|sent|] == sent;
    SameKeysSealAlike(l.suite, CardAfter(l, sent[..i]), CardAfter(l, sent), CodeOf(sent[i]), Answer(l, sent, i));
  }

  // --- Replays --------------------------------------------------------------

  /** Sealed data verifies in answer to any command, under its own code or another's, exactly
      if it opens to something under that command's code. */
  lemma SealedVerifies(l: CardLink, card: Card, earlier: Block, plain: seq<byte>, cmd: ApduCommand, resp: ApduResponse)
    requires LawfulCipher(l.suite.cipher) && |cmd.data| >= BLOCK_SIZE
    requires resp.sw != SW_SECURITY_CONDITION_NOT_SATISFIED
    requires resp.data == SealReply(l.suite, card, earlier, plain).1.data
    ensures Verifies(l, card, cmd, resp) <==> Reopened(plain, earlier, CodeOf(cmd)).Some?
  {
    hide Mac, ReplyMeta, DecryptPadded, EncryptPadded, Reopened, LawfulCipher;
    var encrypted := EncryptPadded(l.suite.cipher, card.encKey, earlier, plain);
    assert resp.data[BLOCK_SIZE..] == encrypted;
    PaddedUnderOther(l.suite.cipher, card.encKey, earlier, CodeOf(cmd), plain);
  }

  /** And the host then takes what it opens to for the reply. */
  lemma ReopenedReply(l: CardLink, card: Card, mid: Session, earlier: Block, plain: seq<byte>, resp: ApduResponse)
    requires LawfulCipher(l.suite.cipher) && mid.open
    requires mid.encKey == Some(card.encKey) && mid.macKey == Some(card.macKey)
    requires resp.sw != SW_SECURITY_CONDITION_NOT_SATISFIED
    requires resp.data == SealReply(l.suite, card, earlier, plain).1.data
    ensures
      var reopened := Reopened(plain, earlier, mid.iv);
      reopened.Some? ==> Transmit(l.suite, mid, Ok(resp)).1 == ParseResponse(reopened.value)
  {
    hide Mac, ReplyMeta, DecryptPadded, EncryptPadded, Reopened, LawfulCipher, ParseResponse;
    var encrypted := EncryptPadded(l.suite.cipher, card.encKey, earlier, plain);
    assert resp.data[BLOCK_SIZE..] == encrypted;
    assert resp.data[..BLOCK_SIZE] == NextIv(l.suite, card.macKey, ReplyMeta(|resp.data|), encrypted);
    PaddedUnderOther(l.suite.cipher, card.encKey, earlier, mid.iv, plain);
  }

  /** The line answers with the data of the reply to the i-th command of the history, which is
      of this session, under a status that does not close the host. */
  ghost predicate Replays(l: CardLink, sent: seq<ApduCommand>, i: nat) {
    && SealedBefore(l, sent, i) && l.net(|sent|).Substitute?
    && l.net(|sent|).reply.data == OwnReply(l, sent[..i + 1]).data
    && l.net(|sent|).reply.sw != SW_SECURITY_CONDITION_NOT_SATISFIED
  }

  /** Exactly when a host in step accepts an earlier reply of its session in answer to a
      command: when the plaintext of that reply has at least 16 bytes, or the one block it is
      padded to, mixed with the codes of both commands, still carries a padding marker. The
      host then stays open at the code of the earlier reply, and is in step exactly if the
      card happens to stand at that code. Accepting it goes by that one test, so that only the
      card's own reply verifies exactly if the test fails, or if the data is that reply's. */
  lemma ReplayedReply(l: CardLink, st: Session, sent: seq<ApduCommand>, req: Request, i: nat) returns (cmd: ApduCommand)
    requires LawfulCipher(l.suite.cipher) && InStep(l, st, sent) && st.open && |req.data| <= 223
    requires Replays(l, sent, i)
    ensures
      var (after, sent', r) := SendProtected(l.suite, st, Respond(l), sent, req);
      var reopened := Reopened(Answer(l, sent, i), CodeOf(sent[i]), CodeOf(cmd));
      var code := SealReply(l.suite, CardAfter(l, sent), CodeOf(sent[i]), Answer(l, sent, i)).0;
      && sent' == sent + [cmd]
      && (after.open <==> reopened.Some?)
      && (|Answer(l, sent, i)| >= BLOCK_SIZE ==> reopened.Some?)
      && (after.open ==> after.iv == code && r == ParseResponse(reopened.value))
      && (InStep(l, after, sent') <==> (after.open ==> code == CardAfter(l, sent').iv))
      && (TrueReplyNext(l, st, sent, req)
          <==> reopened.None? || (l.net(|sent|).delivered && l.net(|sent|).reply.data == OwnReply(l, sent + [cmd]).data))
  {
    EarlierReply(l, sent, i);
    hide LawfulCipher, SendProtected, Transmit, Receive, Frame, SealReply, Reopened, ParseResponse, Protects, TrueReply;
    hide CardAfter, Respond, TrueReplyNext, Answer, Travel, Executed;
    cmd := SentRequest(l, st, sent, req);
    OutcomeOfReplay(l, CardAfter(l, sent), st, |sent|, cmd, req.data, CodeOf(sent[i]), Answer(l, sent, i));
    OwnReplyOfLast(l, sent, cmd);
    hide OwnReply;
  }

  lemma OwnReplyOfLast(l: CardLink, sent: seq<ApduCommand>, cmd: ApduCommand)
    ensures OwnReply(l, sent + [cmd]) == Receive(l, CardAfter(l, sent), |sent|, Frame(cmd)).1
  {
    hide Receive, CardAfter, Frame;
    assert (sent + [cmd])[..|sent|] == sent;
  }

  lemma OutcomeOfReplay(l: CardLink, card: Card, before: Session, i: nat, cmd: ApduCommand, data: seq<byte>,
                        earlier: Block, plain: seq<byte>)
    requires LawfulCipher(l.suite.cipher) && card.open && before.open
    requires before.encKey == Some(card.encKey) && before.macKey == Some(card.macKey) && before.iv == card.iv
    requires BLOCK_SIZE < |cmd.data| && Protects(l.suite, before, cmd, data)
    requires l.net(i).Substitute? && l.net(i).reply.sw != SW_SECURITY_CONDITION_NOT_SATISFIED
    requires l.net(i).reply.data == SealReply(l.suite, card, earlier, plain).1.data
    ensures
      var (card', outcome) := Travel(l, card, i, cmd);
      var (after, r) := Transmit(l.suite, before.(iv := cmd.data[..BLOCK_SIZE]), outcome);
      var reopened := Reopened(plain, earlier, CodeOf(cmd));
      && card'.open && card'.encKey == card.encKey && card'.macKey == card.macKey
      && (after.open <==> reopened.Some?)
      && (|plain| >= BLOCK_SIZE ==> reopened.Some?)
      && (after.open ==>
            && after == before.(iv := SealReply(l.suite, card, earlier, plain).0)
            && r == ParseResponse(reopened.value))
      && (TrueReply(l, card, i, cmd)
          <==> reopened.None? || (l.net(i).delivered && l.net(i).reply.data == Receive(l, card, i, Frame(cmd)).1.data))
  {
    var resp := l.net(i).reply;
    OutcomeOnAnyLine(l, card, before, i, cmd, data);
    SealedVerifies(l, card, earlier, plain, cmd, resp);
    ReopenedReply(l, card, before.(iv := cmd.data[..BLOCK_SIZE]), earlier, plain, resp);
    SealedReplyIsOk(l.suite, card, earlier, plain);
    if |plain| >= BLOCK_SIZE {
      LongDataReopens(plain, earlier, CodeOf(cmd));
    }
    hide LawfulCipher, Transmit, Receive, Frame, SealReply, Reopened, Verifies, ParseResponse, Protects;
  }

  /** If the command does not reach the card, the card is as before. */
  lemma UndeliveredExchange(l: CardLink, st: Session, sent: seq<ApduCommand>, req: Request)
    requires LawfulCipher(l.suite.cipher) && Keyed(st) && st.open && |req.data| <= 223
    requires l.net(|sent|).Substitute? && !l.net(|sent|).delivered
    ensures CardAfter(l, SendProtected(l.suite, st, Respond(l), sent, req).1) == CardAfter(l, sent)
  {
    hide SendProtected, LawfulCipher, Transmit, Receive, TrueReply, Protects, CardAfter, Respond;
    var cmd := SentRequest(l, st, sent, req);
  }

  // --- Lines that replay nothing acceptable ---------------------------------

  /** In place of a reply the line puts nothing but a refusal or an earlier reply of the session
      that does not open to anything under the code of the command. */
  ghost predicate RejectedNext(l: CardLink, st: Session, sent: seq<ApduCommand>, req: Request)
    requires Keyed(st)
  {
    var cmd := ProtectedCommand(l.suite, st, 0x80, req.ins, req.p1, req.p2, req.data).1;
    cmd.Ok? && l.net(|sent|).Substitute? ==>
      || l.net(|sent|).reply.sw == SW_SECURITY_CONDITION_NOT_SATISFIED
      || exists i: nat :: Replays(l, sent, i) && Reopened(Answer(l, sent, i), CodeOf(sent[i]), CodeOf(cmd.value)).None?
  }

  ghost predicate RejectedRun(l: CardLink, st: Session, sent: seq<ApduCommand>, reqs: seq<Request>)
    requires Keyed(st)
    decreases |reqs|
  {
    reqs == [] || (
      && (st.open ==> RejectedNext(l, st, sent, reqs[0]))
      && var (after, sent', _) := SendProtected(l.suite, st, Respond(l), sent, reqs[0]);
      RejectedRun(l, after, sent', reqs[1..]))
  }

  lemma RejectedIsTrue(l: CardLink, st: Session, sent: seq<ApduCommand>, req: Request)
    requires LawfulCipher(l.suite.cipher) && InStep(l, st, sent) && st.open && |req.data| <= 223
    requires RejectedNext(l, st, sent, req)
    ensures TrueReplyNext(l, st, sent, req)
  {
    var cmd := ProtectedCommand(l.suite, st, 0x80, req.ins, req.p1, req.p2, req.data).1;
    hide ProtectedCommand, LawfulCipher, CardAfter, Receive, Frame, Answer, Reopened, SealedBefore, OwnReply, Respond;
    if cmd.Ok? && l.net(|sent|).Substitute? && l.net(|sent|).reply.sw != SW_SECURITY_CONDITION_NOT_SATISFIED {
      var i: nat :| Replays(l, sent, i) && Reopened(Answer(l, sent, i), CodeOf(sent[i]), CodeOf(cmd.value)).None?;
      var c := ReplayedReply(l, st, sent, req, i);
      SentIs(l, st, sent, req);
      assert c == cmd.value;
    }
  }

  lemma SentIs(l: CardLink, st: Session, sent: seq<ApduCommand>, req: Request)
    requires Keyed(st)
    ensures var cmd := ProtectedCommand(l.suite, st, 0x80, req.ins, req.p1, req.p2, req.data).1;
      cmd.Ok? ==> SendProtected(l.suite, st, Respond(l), sent, req).1[|sent|..] == [cmd.value]
  {
    hide ProtectedCommand, Transmit, Respond;
  }

  /** On such a line the whole run is one of true replies, so that lockstep holds over it. */
  lemma {:induction false} RejectedReplaysKeepLockstep(l: CardLink, st: Session, sent: seq<ApduCommand>, reqs: seq<Request>)
    requires LawfulCipher(l.suite.cipher) && InStep(l, st, sent) && st.established
    requires RejectedRun(l, st, sent, reqs)
    ensures TrueRun(l, st, sent, reqs).3 == []
    decreases |reqs|
  {
    hide CardAfter, Respond, SendProtected, TrueReplyNext, LawfulCipher, Answered, RejectedNext;
    if reqs != [] {
      RequestStep(l, st, sent, reqs[0]);
      if st.open && |reqs[0].data| <= 223 {
        RejectedIsTrue(l, st, sent, reqs[0]);
      } else {
        RefusedIsTrue(l, st, sent, reqs[0]);
      }
      var (mid, sent1, _) := SendProtected(l.suite, st, Respond(l), sent, reqs[0]);
      RejectedReplaysKeepLockstep(l, mid, sent1, reqs[1..]);
    }
  }

  // --- Out of step ----------------------------------------------------------

  /** A command of a host out of step, with the keys of the card but at any block, on a line that
      delivers. A payload of at least 16 bytes is always executed, and is the one requested
      exactly if both were at the same block; a shorter one is executed if its block, mixed with
      both, still carries a padding marker. Either the card executes what it decrypts, and both
      are in step again, or it refuses, and both are closed. */
  lemma MisalignedExchange(l: CardLink, st: Session, sent: seq<ApduCommand>, req: Request)
    requires LawfulCipher(l.suite.cipher) && Keyed(st) && st.open && |req.data| <= 223 && l.net(|sent|) == Deliver
    requires var card := CardAfter(l, sent);
      card.open && st.encKey == Some(card.encKey) && st.macKey == Some(card.macKey)
    ensures
      var card := CardAfter(l, sent);
      var payload := Reopened(req.data, st.iv, card.iv);
      var (after, sent', r) := SendProtected(l.suite, st, Respond(l), sent, req);
      && (|req.data| >= BLOCK_SIZE ==> payload.Some? && (payload.value == req.data <==> st.iv == card.iv))
      && (if payload.Some? then
            && CardAfter(l, sent').inbox == card.inbox + [req.Plain().(data := payload.value)]
            && after.open && InStep(l, after, sent') && r == ParseResponse(l.app(CardAfter(l, sent').inbox))
          else CardAfter(l, sent').inbox == card.inbox && !CardAfter(l, sent').open && !after.open)
  {
    var card := CardAfter(l, sent);
    MisalignedCard(l, card, |sent|, st, req);
    if |req.data| >= BLOCK_SIZE {
      LongDataReopens(req.data, st.iv, card.iv);
      MixedIsSame(req.data[..16], st.iv, card.iv);
      MixedData(req.data, st.iv, card.iv);
    }
    hide ProtectedCommand, LawfulCipher, Transmit, Receive, Frame, SealReply, Reopened, ParseResponse, Protects;
    hide CardAfter, Respond, MixFirst, SendProtected;
    var cmd := SentRequest(l, st, sent, req);
    SentIs(l, st, sent, req);
    var payload := Reopened(req.data, st.iv, card.iv);
    if payload.Some? {
      var inbox := card.inbox + [req.Plain().(data := payload.value)];
      ReplyOpens(l.suite, card, st.(iv := cmd.data[..BLOCK_SIZE]), l.app(inbox));
      SealedReplyIsOk(l.suite, card, cmd.data[..BLOCK_SIZE], l.app(inbox));
      OwnReplyOpens(l.suite, st.(iv := cmd.data[..BLOCK_SIZE]), Receive(l, card, |sent|, Frame(cmd)).1);
    }
  }

  lemma OwnReplyOpens(s: Suite, st: Session, reply: ApduResponse)
    requires Keyed(st) && st.open && reply.sw == SW_OK
    ensures Transmit(s, st, Ok(reply)) == OpenReply(s, st, reply.data)
  {
    hide OpenReply;
  }

  lemma MixedData(p: seq<byte>, a: Block, b: Block)
    requires |p| >= 16
    ensures MixFirst(p, a, b) == p <==> XorBlock(XorBlock(p[..16], a), b) == p[..16]
  {
    var first := XorBlock(XorBlock(p[..16], a), b);
    assert MixFirst(p, a, b)[..16] == first;
    assert p == p[..16] + p[16..];
  }

  /** What the card makes of the command. */
  lemma MisalignedCard(l: CardLink, card: Card, i: nat, st: Session, req: Request)
    requires LawfulCipher(l.suite.cipher) && Keyed(st) && st.open && |req.data| <= 223
    requires card.open && st.encKey == Some(card.encKey) && st.macKey == Some(card.macKey)
    ensures
      var cmd := ProtectedCommand(l.suite, st, 0x80, req.ins, req.p1, req.p2, req.data).1;
      && cmd.Ok?
      && var payload := Reopened(req.data, st.iv, card.iv);
      Receive(l, card, i, Frame(cmd.value))
      == if payload.None? then (card.(open := false), ApduResponse([], SW_SECURITY_CONDITION_NOT_SATISFIED))
         else
           var inbox := card.inbox + [req.Plain().(data := payload.value)];
           var (iv, reply) := SealReply(l.suite, card, CodeOf(cmd.value), l.app(inbox));
           (card.(iv := iv, inbox := inbox), reply)
  {
    hide Frame, ParseFrame, DecryptPadded, EncryptPadded, Mac, CommandMeta, SealReply, Reopened, LawfulCipher, ArrivedHeader;
    PaddedUnderOther(l.suite.cipher, card.encKey, st.iv, card.iv, req.data);
    var cmd := ProtectedCommand(l.suite, st, 0x80, req.ins, req.p1, req.p2, req.data).1.value;
    FrameRoundTrip(cmd);
    HeaderArrives(cmd);
    assert cmd.data[BLOCK_SIZE..] == EncryptPadded(l.suite.cipher, card.encKey, st.iv, req.data);
    assert cmd.data[..BLOCK_SIZE]
      == NextIv(l.suite, card.macKey, CommandMeta(0x80, req.ins, req.p1, req.p2, |cmd.data|), cmd.data[BLOCK_SIZE..]);
  }

  // --- A run that falls out of step -----------------------------------------

  lemma EncryptTwo(c: Cipher, k: seq<byte>, iv: Block, a: Block, b: Block)
    ensures var first := c.encrypt(k, XorBlock(a, iv));
      Encrypt(c, k, iv, a + b) == first + c.encrypt(k, XorBlock(b, first))
  {
    var first := c.encrypt(k, XorBlock(a, iv));
    assert (a + b)[..16] == a && (a + b)[16..] == b && b[..16] == b && b[16..] == [];
    assert Encrypt(c, k, first, b) == c.encrypt(k, XorBlock(b, first)) + [];
  }

  /** The code of a reply of two blocks. */
  lemma CodeOfTwo(s: Suite, card: Card, earlier: Block, p: seq<byte>, a: Block, b: Block)
    requires Pad(p) == a + b
    ensures
      var first := s.cipher.encrypt(card.encKey, XorBlock(a, earlier));
      SealReply(s, card, earlier, p).0
      == s.cipher.encrypt(card.macKey, XorBlock(Mac(s.cipher, card.macKey, Zeros(16), ReplyMeta(48) + first),
                                                s.cipher.encrypt(card.encKey, XorBlock(b, first))))
  {
    EncryptTwo(s.cipher, card.encKey, earlier, a, b);
    var first: Block := s.cipher.encrypt(card.encKey, XorBlock(a, earlier));
    var last: Block := s.cipher.encrypt(card.encKey, XorBlock(b, first));
    hide Encrypt, Mac, Pad, Zeros, XorBlock, ReplyMeta;
    assert ReplyMeta(48) + (first + last) == (ReplyMeta(48) + first) + last;
    MacSnoc(s.cipher, card.macKey, Zeros(16), ReplyMeta(48) + first, last);
  }

  /** Two replies of two blocks that differ in the second only have different codes. */
  lemma DistinctCodes(s: Suite, card: Card, earlier: Block, p: seq<byte>, q: seq<byte>, a: Block, b: Block, b': Block)
    requires LawfulCipher(s.cipher) && Pad(p) == a + b && Pad(q) == a + b' && b != b'
    ensures SealReply(s, card, earlier, p).0 != SealReply(s, card, earlier, q).0
  {
    hide Mac, LawfulCipher, Pad, Zeros, XorBlock, ReplyMeta, SealReply;
    CodeOfTwo(s, card, earlier, p, a, b);
    CodeOfTwo(s, card, earlier, q, a, b');
    if SealReply(s, card, earlier, p).0 == SealReply(s, card, earlier, q).0 {
      var c := s.cipher;
      var first: Block := c.encrypt(card.encKey, XorBlock(a, earlier));
      var last: Block := c.encrypt(card.encKey, XorBlock(b, first));
      var last': Block := c.encrypt(card.encKey, XorBlock(b', first));
      var running := Mac(c, card.macKey, Zeros(16), ReplyMeta(48) + first);
      XorBlockCommutes(running, last);
      XorBlockCommutes(running, last');
      MaskInjective(c, card.macKey, running, last, last');
      MaskInjective(c, card.encKey, first, b, b');
      assert false;
    }
  }

  lemma TwoAnswers(s: Suite, card: Card, earlier: Block)
    requires LawfulCipher(s.cipher)
    ensures SealReply(s, card, earlier, Zeros(16)).0 != SealReply(s, card, earlier, Zeros(17)).0
  {
    var a: Block, b: Block, b': Block := Zeros(16), [0x80] + Zeros(15), [0, 0x80] + Zeros(14);
    assert Pad(Zeros(16)) == a + b;
    assert Pad(Zeros(17)) == a + b';
    assert b[0] != b'[0];
    DistinctCodes(s, card, earlier, Zeros(16), Zeros(17), a, b, b');
  }

  /** A link whose line answers the second command with the reply to the first, and whose
      application answers the first command with 16 bytes. */
  function ReplayingLink(s: Suite, start: Card, reply: ApduResponse, second: seq<byte>): CardLink {
    CardLink(s, [], _ => None, _ => Zeros(32), _ => Zeros(16),
      (inbox: seq<PlainCommand>) => if |inbox| == |start.inbox| + 1 then Zeros(16) else second,
      i => if i == 1 then Substitute(true, reply) else Deliver, start)
  }

  /** Whatever the suite, the session and the requests, there is a card whose first reply, put
      in place of its second, leaves a host in step open and out of step with it, although the
      card has executed both requests. */
  lemma ReplayBreaksStep(s: Suite, start: Card, st: Session, req1: Request, req2: Request) returns (l: CardLink)
    requires LawfulCipher(s.cipher) && start.open && Keyed(st) && st.open
    requires st.encKey == Some(start.encKey) && st.macKey == Some(start.macKey) && st.iv == start.iv
    requires |req1.data| <= 223 && |req2.data| <= 223
    ensures l.suite == s && l.start == start && InStep(l, st, [])
    ensures
      var (mid, sent1, _) := SendProtected(s, st, Respond(l), [], req1);
      var (after, sent2, _) := SendProtected(s, mid, Respond(l), sent1, req2);
      && Replays(l, sent1, 0) && InStep(l, mid, sent1) && mid.open
      && CardAfter(l, sent2).inbox == start.inbox + [req1.Plain()] + [req2.Plain()]
      && after.open && !InStep(l, after, sent2)
  {
    hide ProtectedCommand, SealReply, LawfulCipher, Protects, Frame, SendProtected, CardAfter, Respond, Replays, InStep;
    ProtectedFrame(s, st, 0x80, req1.ins, req1.p1, req1.p2, req1.data);
    var cmd1 := ProtectedCommand(s, st, 0x80, req1.ins, req1.p1, req1.p2, req1.data).1.value;
    var (code, reply) := SealReply(s, start, CodeOf(cmd1), Zeros(16));
    var mid := st.(iv := code);
    ProtectedFrame(s, mid, 0x80, req2.ins, req2.p1, req2.p2, req2.data);
    var cmd2 := ProtectedCommand(s, mid, 0x80, req2.ins, req2.p1, req2.p2, req2.data).1.value;
    var card := start.(iv := code, inbox := start.inbox + [req1.Plain()]);
    TwoAnswers(s, card, CodeOf(cmd2));
    var second := if SealReply(s, card, CodeOf(cmd2), Zeros(16)).0 != code then Zeros(16) else Zeros(17);
    l := ReplayingLink(s, start, reply, second);
    FirstOfReplay(l, st, req1, cmd1, second);
    SecondOfReplay(l, mid, [cmd1], req2, cmd2, second);
  }

  /** The first exchange. */
  lemma FirstOfReplay(l: CardLink, st: Session, req: Request, cmd: ApduCommand, second: seq<byte>)
    requires LawfulCipher(l.suite.cipher) && l.start.open && Keyed(st) && st.open && |req.data| <= 223
    requires st.encKey == Some(l.start.encKey) && st.macKey == Some(l.start.macKey) && st.iv == l.start.iv
    requires Ok(cmd) == ProtectedCommand(l.suite, st, 0x80, req.ins, req.p1, req.p2, req.data).1
    requires var reply := SealReply(l.suite, l.start, CodeOf(cmd), Zeros(16)).1;
      l == ReplayingLink(l.suite, l.start, reply, second)
    ensures
      var (code, reply) := SealReply(l.suite, l.start, CodeOf(cmd), Zeros(16));
      var (mid, sent1, _) := SendProtected(l.suite, st, Respond(l), [], req);
      && mid == st.(iv := code) && sent1 == [cmd] && InStep(l, st, []) && InStep(l, mid, sent1)
      && Replays(l, sent1, 0) && Answer(l, sent1, 0) == Zeros(16)
      && SealReply(l.suite, CardAfter(l, sent1), CodeOf(sent1[0]), Zeros(16)).0 == code
      && CardAfter(l, sent1) == l.start.(iv := code, inbox := l.start.inbox + [req.Plain()])
  {
    AtStart(l);
    hide ProtectedCommand, SealReply, LawfulCipher, Protects, Frame, Transmit, Receive, Verifies, CardAfter, Respond;
    hide ParseResponse, SendProtected;
    var c := SentRequest(l, st, [], req);
    SentIs(l, st, [], req);
    assert [] + [c] == [c] && [c][0..] == [c];
    CardReceives(l, l.start, 0, st, cmd, req.data);
    SealedReplyIsOk(l.suite, l.start, CodeOf(cmd), Zeros(16));
    OutcomeOnAnyLine(l, l.start, st, 0, cmd, req.data);
    OutcomeOfTrueReply(l, l.start, st, 0, cmd, req.data);
    OwnReplyOfLast(l, [], cmd);
    assert [cmd][..1] == [cmd] && [cmd][..0] == [];
    SameKeysSealAlike(l.suite, l.start, CardAfter(l, [cmd]), CodeOf(cmd), Zeros(16));
    hide ReplayingLink, OwnReply;
  }

  lemma SameKeysSealAlike(s: Suite, a: Card, b: Card, mac: Block, plain: seq<byte>)
    requires a.encKey == b.encKey && a.macKey == b.macKey
    ensures SealReply(s, a, mac, plain) == SealReply(s, b, mac, plain)
  {
    hide EncryptPadded, NextIv;
  }

  lemma AtStart(l: CardLink)
    ensures CardAfter(l, []) == l.start
  {
  }

  /** The second, whose reply is replaced by the first. */
  lemma SecondOfReplay(l: CardLink, mid: Session, sent: seq<ApduCommand>, req: Request, cmd: ApduCommand, second: seq<byte>)
    requires LawfulCipher(l.suite.cipher) && InStep(l, mid, sent) && mid.open && |req.data| <= 223
    requires |sent| == 1 && Replays(l, sent, 0) && l.net(1).delivered && |Answer(l, sent, 0)| >= BLOCK_SIZE
    requires Ok(cmd) == ProtectedCommand(l.suite, mid, 0x80, req.ins, req.p1, req.p2, req.data).1
    requires l.app(CardAfter(l, sent).inbox + [req.Plain()]) == second
    requires SealReply(l.suite, CardAfter(l, sent), CodeOf(cmd), second).0
      != SealReply(l.suite, CardAfter(l, sent), CodeOf(sent[0]), Answer(l, sent, 0)).0
    ensures
      var (after, sent2, _) := SendProtected(l.suite, mid, Respond(l), sent, req);
      && CardAfter(l, sent2).inbox == CardAfter(l, sent).inbox + [req.Plain()]
      && after.open && !InStep(l, after, sent2)
  {
    DeliveredCard(l, mid, sent, req, cmd);
    hide ProtectedCommand, SealReply, LawfulCipher, CardAfter, Respond, SendProtected, TrueReplyNext, OwnReply, InStep;
    hide Reopened, Answer, SealedBefore, ParseResponse;
    var c := ReplayedReply(l, mid, sent, req, 0);
  }

  /** The card after a command of a host in step that reaches it. */
  lemma DeliveredCard(l: CardLink, st: Session, sent: seq<ApduCommand>, req: Request, cmd: ApduCommand)
    requires LawfulCipher(l.suite.cipher) && InStep(l, st, sent) && st.open && |req.data| <= 223
    requires Ok(cmd) == ProtectedCommand(l.suite, st, 0x80, req.ins, req.p1, req.p2, req.data).1
    requires l.net(|sent|).Substitute? && l.net(|sent|).delivered
    ensures
      var card := CardAfter(l, sent);
      var inbox := card.inbox + [req.Plain()];
      CardAfter(l, SendProtected(l.suite, st, Respond(l), sent, req).1)
      == card.(iv := SealReply(l.suite, card, CodeOf(cmd), l.app(inbox)).0, inbox := inbox)
  {
    hide ProtectedCommand, SealReply, LawfulCipher, Protects, Frame, Transmit, Receive, CardAfter, Respond, SendProtected;
    hide TrueReplyNext, TrueReply;
    var c := SentRequest(l, st, sent, req);
    SentIs(l, st, sent, req);
    assert (sent + [c])[|sent|..] == [c];
    CardReceives(l, CardAfter(l, sent), |sent|, st, cmd, req.data);
  }

  // --- Openings -------------------------------------------------------------

  /** Whether a reply passes for the answer to the challenge. */
  predicate Authenticates(r: Result<ApduResponse>) {
    r.Ok? && r.value.sw == SW_OK && |r.value.data| == SC_SECRET_LENGTH
  }

  lemma AuthenticLength(plain: seq<byte>)
    ensures Authenticates(ParseResponse(plain))
      <==> |plain| == 34 && Word(plain[16..][16], plain[16..][17]) == SW_OK
  {
  }

  /** Under the same keys, a response authenticates the card under one block exactly if it does
      under any other. */
  lemma AuthenticatesUnderAny(s: Suite, st: Session, other: Session, data: seq<byte>)
    requires st.open && other.open && Keyed(st) && Keyed(other)
    requires st.encKey == other.encKey && st.macKey == other.macKey
    ensures Authenticates(OpenReply(s, st, data).1) <==> Authenticates(OpenReply(s, other, data).1)
  {
    hide DecryptPadded, NextIv, ParseResponse, Authenticates;
    if |data| >= BLOCK_SIZE {
      var r := data[BLOCK_SIZE..];
      var p, q := DecryptPadded(s.cipher, st.encKey.value, st.iv, r), DecryptPadded(s.cipher, st.encKey.value, other.iv, r);
      if p.Some? {
        AuthenticLength(p.value);
      }
      if q.Some? {
        AuthenticLength(q.value);
      }
      if |r| > 16 {
        OtherBlockSameEnd(s.cipher, st.encKey.value, st.iv, other.iv, r);
      } else {
        ShortUnpads(s.cipher, st.encKey.value, st.iv, r);
        ShortUnpads(s.cipher, st.encKey.value, other.iv, r);
      }
      ErrorsDoNot();
    }
  }

  lemma ErrorsDoNot()
    ensures forall e: Error :: !Authenticates(Err(e))
  {
  }

  lemma AuthenticationUnderAny(s: Suite, st: Session, other: Session, reply: Result<ApduResponse>)
    requires st.open && other.open && Keyed(st) && Keyed(other)
    requires st.encKey == other.encKey && st.macKey == other.macKey
    ensures Authenticates(Transmit(s, st, reply).1) <==> Authenticates(Transmit(s, other, reply).1)
  {
    hide OpenReply;
    if reply.Ok? {
      AuthenticatesUnderAny(s, st, other, reply.value.data);
    }
  }

  /** Whether an opening succeeds is decided by the two replies, for all sessions of one secret
      and pairing: not by the challenge, which the second reply therefore need not answer. The
      session is then open and established. */
  lemma OpeningIgnoresChallenge(
    s: Suite, st: Session, other: Session, openReply: Result<ApduResponse>, authReply: Result<ApduResponse>,
    challenge: seq<byte>, challenge': seq<byte>)
    requires LawfulCipher(s.cipher) && Keyed(st) && Keyed(other)
    requires st.secret == other.secret && st.pairing == other.pairing && (st.publicKey.Some? <==> other.publicKey.Some?)
    requires |challenge| == SC_SECRET_LENGTH && |challenge'| == SC_SECRET_LENGTH
    ensures AutoOpen(s, st, openReply, Ok(challenge), authReply).1.Ok?
      <==> AutoOpen(s, other, openReply, Ok(challenge'), authReply).1.Ok?
    ensures var (after, r) := AutoOpen(s, other, openReply, Ok(challenge'), authReply);
      r.Ok? ==> after.open && after.established
  {
    hide AutoOpen, Transmit, Authenticates, ProtectedCommand, LawfulCipher, OpenedBy;
    OpeningGoesBy(s, st, openReply, authReply, challenge);
    OpeningGoesBy(s, other, openReply, authReply, challenge');
    OpenedAlike(s, st, other, openReply);
    var mid, mid' := OpenedBy(s, st, openReply).0, OpenedBy(s, other, openReply).0;
    if OpenedBy(s, st, openReply).1.Ok? {
      ProtectedFrame(s, mid, 0x80, INS_MUTUALLY_AUTHENTICATE, 0, 0, challenge);
      ProtectedFrame(s, mid', 0x80, INS_MUTUALLY_AUTHENTICATE, 0, 0, challenge');
      AuthenticationUnderAny(s, ProtectedCommand(s, mid, 0x80, INS_MUTUALLY_AUTHENTICATE, 0, 0, challenge).0,
        ProtectedCommand(s, mid', 0x80, INS_MUTUALLY_AUTHENTICATE, 0, 0, challenge').0, authReply);
    }
  }

  /** The answer to an opening makes the same keys of one secret and pairing. */
  lemma OpenedAlike(s: Suite, st: Session, other: Session, openReply: Result<ApduResponse>)
    requires Keyed(st) && Keyed(other) && st.secret == other.secret && st.pairing == other.pairing
    ensures
      var (mid, r), (mid', r') := OpenedBy(s, st, openReply), OpenedBy(s, other, openReply);
      r == r' && (r.Ok? ==> mid.open && mid'.open && mid.encKey == mid'.encKey && mid.macKey == mid'.macKey)
  {
  }

  /** When an opening succeeds. */
  lemma OpeningGoesBy(s: Suite, st: Session, openReply: Result<ApduResponse>, authReply: Result<ApduResponse>,
                      challenge: seq<byte>)
    requires LawfulCipher(s.cipher) && Keyed(st) && |challenge| == SC_SECRET_LENGTH
    ensures
      var (after, r) := AutoOpen(s, st, openReply, Ok(challenge), authReply);
      var (mid, processed) := OpenedBy(s, st, openReply);
      && (r.Ok? <==>
            && st.publicKey.Some? && st.pairing.Some? && processed.Ok?
            && Authenticates(Transmit(s, ProtectedCommand(s, mid, 0x80, INS_MUTUALLY_AUTHENTICATE, 0, 0, challenge).0,
                                      authReply).1))
      && (r.Ok? ==> after.open && after.established)
  {
    hide OpenedBy, Transmit, ProtectedCommand, LawfulCipher;
    var (mid, processed) := OpenedBy(s, st, openReply);
    if processed.Ok? {
      ProtectedFrame(s, mid, 0x80, INS_MUTUALLY_AUTHENTICATE, 0, 0, challenge);
      OkStaysOpen(s, ProtectedCommand(s, mid, 0x80, INS_MUTUALLY_AUTHENTICATE, 0, 0, challenge).0, authReply);
    }
  }
}
