/** Safety of a version 1 session over whole runs, against any channel. */
module SafetyV1 {
  import opened Bytes
  import opened Apdu
  import opened Cbc
  import opened SecureChannelV1

  datatype Op =
    | Protect(cla: byte, ins: byte, p1: byte, p2: byte, data: seq<byte>)
    | Exchange(outcome: Result<ApduResponse>)
    | Opening(openReply: Result<ApduResponse>, random: Result<seq<byte>>, authReply: Result<ApduResponse>)
    | OpenRequestOnly
    | Secret(secret: seq<byte>, publicKey: seq<byte>)
    | Pair(pairing: Pairing)
    | Reset

  function Step(s: Suite, st: Session, op: Op): (next: Session)
    requires Keyed(st)
    ensures Keyed(next)
  {
    match op
    case Protect(cla, ins, p1, p2, data) => ProtectedCommand(s, st, cla, ins, p1, p2, data).0
    case Exchange(outcome) => Transmit(s, st, outcome).0
    case Opening(openReply, random, authReply) => AutoOpen(s, st, openReply, random, authReply).0
    case OpenRequestOnly => st.(open := false)
    case Secret(secret, publicKey) => st.(secret := Some(secret), publicKey := Some(publicKey))
    case Pair(pairing) => st.(pairing := Some(pairing))
    case Reset => ResetSession(st)
  }

  /** The keys of an open session are present all along, so no step can fail on them. */
  function Run(s: Suite, st: Session, ops: seq<Op>): (last: Session)
    requires Keyed(st)
    ensures Keyed(last)
    decreases |ops|
  {
    if ops == [] then st else Run(s, Step(s, st, ops[0]), ops[1..])
  }

  ghost predicate WithoutReset(ops: seq<Op>) {
    forall i :: 0 <= i < |ops| ==> !ops[i].Reset?
  }

  lemma {:induction false} EstablishedUntilReset(s: Suite, st: Session, ops: seq<Op>)
    requires Keyed(st) && st.established && WithoutReset(ops)
    ensures Run(s, st, ops).established
    decreases |ops|
  {
    if ops != [] {
      assert !ops[0].Reset?;
      EstablishedUntilReset(s, Step(s, st, ops[0]), ops[1..]);
    }
  }

  /** The receiver's view of a protected frame: the code authenticates the header and the
      ciphertext, and the ciphertext decrypts, under the block before it, to the payload. */
  ghost predicate Protects(s: Suite, st: Session, cmd: ApduCommand, data: seq<byte>)
    requires st.encKey.Some? && st.macKey.Some?
  {
    && BLOCK_SIZE < |cmd.data| <= 255 && !cmd.needsLe
    && var mac, encrypted := cmd.data[..BLOCK_SIZE], cmd.data[BLOCK_SIZE..];
    && mac == NextIv(s, st.macKey.value, CommandMeta(cmd.cla, cmd.ins, cmd.p1, cmd.p2, |cmd.data|), encrypted)
    && DecryptPadded(s.cipher, st.encKey.value, st.iv, encrypted) == Some(data)
  }

  /** An open session accepts a payload exactly when it has at most 223 bytes; a larger one
      is refused with the chain untouched, and an accepted one is protected under a header
      equal to the request's, in a frame that fits a short APDU, and becomes the next block. */
  lemma ProtectedFrame(s: Suite, st: Session, cla: byte, ins: byte, p1: byte, p2: byte, data: seq<byte>)
    requires LawfulCipher(s.cipher) && Keyed(st) && st.open
    ensures
      var (after, r) := ProtectedCommand(s, st, cla, ins, p1, p2, data);
      && (r.Ok? <==> |data| <= 223)
      && (r.Err? ==> after == st)
      && (r.Ok? ==>
            && (r.value.cla, r.value.ins, r.value.p1, r.value.p2) == (cla, ins, p1, p2)
            && BLOCK_SIZE < |r.value.data| <= 255
            && Protects(s, st, r.value, data)
            && after == st.(iv := r.value.data[..BLOCK_SIZE]))
  {
    hide DecryptPadded, EncryptPadded, Mac, CommandMeta;
    PaddedRoundTrip(s.cipher, st.encKey.value, st.iv, data);
    var (after, r) := ProtectedCommand(s, st, cla, ins, p1, p2, data);
    if r.Ok? {
      assert r.value.data[..BLOCK_SIZE] == after.iv;
      assert r.value.data[BLOCK_SIZE..] == EncryptPadded(s.cipher, st.encKey.value, st.iv, data);
    }
  }

  /** Once an opening has succeeded, every command yielded on any later run without a reset
      is protected, or it is an error. */
  lemma NoPlaintextFallback(
    s: Suite, st: Session, openReply: Result<ApduResponse>, random: Result<seq<byte>>, authReply: Result<ApduResponse>,
    ops: seq<Op>, cla: byte, ins: byte, p1: byte, p2: byte, data: seq<byte>)
    requires LawfulCipher(s.cipher) && Keyed(st)
    requires AutoOpen(s, st, openReply, random, authReply).1.Ok? && WithoutReset(ops)
    ensures
      var at := Run(s, AutoOpen(s, st, openReply, random, authReply).0, ops);
      var r := ProtectedCommand(s, at, cla, ins, p1, p2, data).1;
      r.Err? || (at.open && Protects(s, at, r.value, data))
  {
    hide AutoOpen, Step, Protects;
    var begun := AutoOpen(s, st, openReply, random, authReply).0;
    EstablishedUntilReset(s, begun, ops);
    var at := Run(s, begun, ops);
    if at.open {
      ProtectedFrame(s, at, cla, ins, p1, p2, data);
    }
  }

  /** Whether some opening has succeeded since the last reset, given whether one had before. */
  function OpenedSinceReset(s: Suite, st: Session, ops: seq<Op>, before: bool): bool
    requires Keyed(st)
    decreases |ops|
  {
    if ops == [] then before
    else
      var now := match ops[0]
        case Reset => false
        case Opening(openReply, random, authReply) =>
          before || AutoOpen(s, st, openReply, random, authReply).1.Ok?
        case _ => before;
      OpenedSinceReset(s, Step(s, st, ops[0]), ops[1..], now)
  }

  lemma {:induction false} EstablishedExactly(s: Suite, st: Session, ops: seq<Op>)
    requires Keyed(st)
    ensures Run(s, st, ops).established == OpenedSinceReset(s, st, ops, st.established)
    decreases |ops|
  {
    if ops != [] {
      hide AutoOpen, ProtectedCommand, Transmit;
      EstablishedExactly(s, Step(s, st, ops[0]), ops[1..]);
    }
  }

  /** Exactly when a command goes out as it is: when the session is closed and no opening has
      succeeded since the last reset. An opening that fails after it has begun to authenticate
      does not count, although it has sent a protected command. */
  lemma PlaintextExactly(s: Suite, ops: seq<Op>, cla: byte, ins: byte, p1: byte, p2: byte, data: seq<byte>)
    ensures var at := Run(s, NEW_SESSION, ops);
      ProtectedCommand(s, at, cla, ins, p1, p2, data).1 == Ok(Command(cla, ins, p1, p2, data))
      <==> !at.open && !OpenedSinceReset(s, NEW_SESSION, ops, false)
  {
    hide Run, OpenedSinceReset, EncryptPadded, Mac, CommandMeta;
    EstablishedExactly(s, NEW_SESSION, ops);
    var at := Run(s, NEW_SESSION, ops);
    if at.open {
      assert |EncryptPadded(s.cipher, at.encKey.value, at.iv, data)| == 16 * (|data| / 16 + 1);
    }
  }

  /** What an opening leaves behind that fails while it authenticates, although it has sent a
      protected command: the session falls back to plaintext exactly if it is closed. */
  lemma FailedAuthentication(
    s: Suite, st: Session, openReply: Result<ApduResponse>, challenge: seq<byte>, authReply: Result<ApduResponse>,
    cla: byte, ins: byte, p1: byte, p2: byte, data: seq<byte>)
    requires LawfulCipher(s.cipher) && Keyed(st) && !st.established
    requires st.publicKey.Some? && st.pairing.Some? && |challenge| == SC_SECRET_LENGTH
    requires OpenedBy(s, st, openReply).1.Ok?
    requires AutoOpen(s, st, openReply, Ok(challenge), authReply).1.Err?
    ensures
      var sends := AutoOpenSends(s, st, openReply, Ok(challenge));
      |sends| == 2 && Protects(s, OpenedBy(s, st, openReply).0, sends[1], challenge)
    ensures
      var after := AutoOpen(s, st, openReply, Ok(challenge), authReply).0;
      ProtectedCommand(s, after, cla, ins, p1, p2, data).1 == Ok(Command(cla, ins, p1, p2, data)) <==> !after.open
  {
    hide OpenedBy, Transmit, EncryptPadded, Protects, LawfulCipher;
    ProtectedFrame(s, OpenedBy(s, st, openReply).0, 0x80, INS_MUTUALLY_AUTHENTICATE, 0, 0, challenge);
    var after := AutoOpen(s, st, openReply, Ok(challenge), authReply).0;
    if after.open {
      PaddedLength(s, after, data);
    }
  }

  lemma PaddedLength(s: Suite, st: Session, data: seq<byte>)
    requires Keyed(st) && st.open
    ensures |EncryptPadded(s.cipher, st.encKey.value, st.iv, data)| == 16 * (|data| / 16 + 1)
  {
  }

  /** A run in which a protected command goes out and the next request then goes out as it is:
      an opening whose authentication reply is lost. */
  lemma PlaintextAfterProtected(
    s: Suite, secret: seq<byte>, publicKey: seq<byte>, pairing: Pairing, salt: seq<byte>, iv: Block,
    challenge: seq<byte>, cla: byte, ins: byte, p1: byte, p2: byte, data: seq<byte>)
    requires LawfulCipher(s.cipher) && |salt| == SC_SECRET_LENGTH && |challenge| == SC_SECRET_LENGTH
    ensures
      var st := Run(s, NEW_SESSION, [Secret(secret, publicKey), Pair(pairing)]);
      var openReply := Ok(ApduResponse(salt + iv, SW_OK));
      var sends := AutoOpenSends(s, st, openReply, Ok(challenge));
      var after := Step(s, st, Opening(openReply, Ok(challenge), Err(Io)));
      && |sends| == 2 && Protects(s, OpenedBy(s, st, openReply).0, sends[1], challenge)
      && ProtectedCommand(s, after, cla, ins, p1, p2, data) == (after, Ok(Command(cla, ins, p1, p2, data)))
  {
    hide Protects, LawfulCipher;
    var ops := [Secret(secret, publicKey), Pair(pairing)];
    assert ops[1..] == [Pair(pairing)] && ops[1..][1..] == [];
    var named := Step(s, NEW_SESSION, ops[0]);
    assert Run(s, NEW_SESSION, ops) == Run(s, named, [Pair(pairing)]) == Step(s, named, Pair(pairing));
    var openReply := Ok(ApduResponse(salt + iv, SW_OK));
    FailedAuthentication(s, Step(s, named, ops[1]), openReply, challenge, Err(Io), cla, ins, p1, p2, data);
  }

  // --- What the transport says ----------------------------------------------

  /** What the transport says of a command reaches the caller as it is, unless an open session
      has a reply to authenticate: a closed session passes on every outcome and stays as it was;
      an open one passes on a failure, and the status 0x6982, and closes. */
  lemma TransportIsReported(s: Suite, st: Session, outcome: Result<ApduResponse>)
    requires Keyed(st)
    ensures !st.open || outcome.Err? || outcome.value.sw == 0x6982 ==>
      Transmit(s, st, outcome) == (st.(open := false), outcome)
  {
  }

  /** What an open session makes of data that is not an authentic reply: it closes with one error.
      Too little data, or data that does not unpad, leaves the block alone; a wrong code has moved
      it on already. */
  lemma RefusedReply(s: Suite, st: Session, resp: ApduResponse)
    requires Keyed(st) && st.open && resp.sw != 0x6982
    ensures
      var (after, r) := Transmit(s, st, Ok(resp));
      var encrypted := if |resp.data| < 16 then [] else resp.data[16..];
      if |resp.data| < 16 || DecryptPadded(s.cipher, st.encKey.value, st.iv, encrypted).None? then
        (after, r) == (st.(open := false), Err(Protocol))
      else
        var code := NextIv(s, st.macKey.value, ReplyMeta(|resp.data|), encrypted);
        if code != resp.data[..16] then (after, r) == (st.(iv := code, open := false), Err(Protocol))
        else
          var plain := DecryptPadded(s.cipher, st.encKey.value, st.iv, encrypted).value;
          (after, r) == (st.(iv := code), ParseResponse(plain))
  {
    hide DecryptPadded, NextIv, ReplyMeta, ParseResponse;
  }

  // --- What a code covers ---------------------------------------------------

  /** The code is the last block of the chained encryption, from a zero block, of header and
      ciphertext. */
  lemma CodeIsLastBlock(s: Suite, k: seq<byte>, meta: Block, encrypted: seq<byte>)
    requires Whole(encrypted)
    ensures NextIv(s, k, meta, encrypted)
      == Encrypt(s.cipher, k, Zeros(16), meta + encrypted)[|encrypted|..]
  {
    MacIsLastBlock(s.cipher, k, Zeros(16), meta + encrypted);
  }

  /** Two headers share a code over one ciphertext only if they are the same. */
  lemma HeadersDecideCodes(s: Suite, k: seq<byte>, a: Block, b: Block, encrypted: seq<byte>)
    requires LawfulCipher(s.cipher)
    ensures NextIv(s, k, a, encrypted) == NextIv(s, k, b, encrypted) <==> a == b
  {
    assert (a + encrypted)[..16] == a && (a + encrypted)[16..] == encrypted;
    assert (b + encrypted)[..16] == b && (b + encrypted)[16..] == encrypted;
    if NextIv(s, k, a, encrypted) == NextIv(s, k, b, encrypted) {
      MacInjective(s.cipher, k, s.cipher.encrypt(k, XorBlock(Zeros(16), a)),
                   s.cipher.encrypt(k, XorBlock(Zeros(16), b)), encrypted);
      EncryptInjective(s.cipher, k, XorBlock(Zeros(16), a), XorBlock(Zeros(16), b));
      XorBlockCancels(Zeros(16), a, b);
    }
  }

  /** So a code covers class, instruction, both parameters and the length of a command, and the
      length of a reply, both modulo 256. */
  lemma HeaderIsAuthenticated(s: Suite, k: seq<byte>, a: ApduCommand, b: ApduCommand, encrypted: seq<byte>)
    requires LawfulCipher(s.cipher)
    ensures
      NextIv(s, k, CommandMeta(a.cla, a.ins, a.p1, a.p2, |a.data|), encrypted)
      == NextIv(s, k, CommandMeta(b.cla, b.ins, b.p1, b.p2, |b.data|), encrypted)
      <==> (a.cla, a.ins, a.p1, a.p2, |a.data| % 256) == (b.cla, b.ins, b.p1, b.p2, |b.data| % 256)
    ensures
      NextIv(s, k, ReplyMeta(|a.data|), encrypted) == NextIv(s, k, ReplyMeta(|b.data|), encrypted)
      <==> |a.data| % 256 == |b.data| % 256
  {
    hide NextIv, LawfulCipher;
    var ma, mb := CommandMeta(a.cla, a.ins, a.p1, a.p2, |a.data|), CommandMeta(b.cla, b.ins, b.p1, b.p2, |b.data|);
    HeadersDecideCodes(s, k, ma, mb, encrypted);
    HeadersDecideCodes(s, k, ReplyMeta(|a.data|), ReplyMeta(|b.data|), encrypted);
    if ma == mb {
      assert ma[0] == mb[0] && ma[1] == mb[1] && ma[2] == mb[2] && ma[3] == mb[3] && ma[4] == mb[4];
    }
    if ReplyMeta(|a.data|) == ReplyMeta(|b.data|) {
      assert ReplyMeta(|a.data|)[0] == ReplyMeta(|b.data|)[0];
    }
  }

  // --- When an opening succeeds ---------------------------------------------

  /** The data of a reply to the authentication, under both session keys and the block of its
      command: the code is right and the plaintext is 32 bytes with status 0x9000. */
  predicate Authentic(s: Suite, encKey: seq<byte>, macKey: seq<byte>, iv: Block, data: seq<byte>) {
    && |data| >= 16
    && data[..16] == NextIv(s, macKey, ReplyMeta(|data|), data[16..])
    && var plain := DecryptPadded(s.cipher, encKey, iv, data[16..]);
    && plain.Some? && |plain.value| == 34 && plain.value[32..] == [0x90, 0x00]
  }

  /** The keys and the first block that an opening reply gives a session. */
  function KeyedBy(s: Suite, st: Session, data: seq<byte>): Session
    requires st.secret.Some? && st.pairing.Some? && |data| >= 48
  {
    var (encKey, macKey) := s.kdf(st.secret.value, st.pairing.value.key, data[..32]);
    st.(encKey := Some(encKey), macKey := Some(macKey), iv := data[32..48], open := true)
  }

  /** The answer to an opening is accepted exactly if it is OK and has at least 48 bytes, and
      secret and pairing are known. */
  lemma AnswerExactly(s: Suite, st: Session, reply: Result<ApduResponse>)
    requires Keyed(st)
    ensures
      var (after, r) := OpenedBy(s, st, reply);
      && (r.Ok? <==> reply.Ok? && reply.value.sw == 0x9000 && |reply.value.data| >= 48
                     && st.secret.Some? && st.pairing.Some?)
      && after == (if r.Ok? then KeyedBy(s, st, reply.value.data) else st.(open := false))
      && (reply.Err? ==> r == Err(reply.error))
      && (reply.Ok? && reply.value.sw != 0x9000 ==> r == Err(Error.Apdu(reply.value.sw)))
  {
  }

  /** Exactly when an opening succeeds: with public key, secret and pairing known, an accepted
      answer, and an authentic reply to the authentication. */
  lemma OpeningExactly(s: Suite, st: Session, openReply: Result<ApduResponse>, challenge: seq<byte>,
                       authReply: Result<ApduResponse>)
    requires LawfulCipher(s.cipher) && Keyed(st) && |challenge| == 32
    ensures
      AutoOpen(s, st, openReply, Ok(challenge), authReply).1.Ok? <==>
        && st.publicKey.Some? && st.secret.Some? && st.pairing.Some?
        && openReply.Ok? && openReply.value.sw == 0x9000 && |openReply.value.data| >= 48
        && authReply.Ok? && authReply.value.sw != 0x6982
        && var mid := KeyedBy(s, st, openReply.value.data);
        && ProtectedCommand(s, mid, 0x80, 0x11, 0, 0, challenge).1.Ok?
        && var cmd := ProtectedCommand(s, mid, 0x80, 0x11, 0, 0, challenge).1.value;
        && |cmd.data| >= 16
        && Authentic(s, mid.encKey.value, mid.macKey.value, cmd.data[..16], authReply.value.data)
  {
    AnswerExactly(s, st, openReply);
    hide OpenedBy, DecryptPadded, EncryptPadded, NextIv, LawfulCipher, ReplyMeta;
    if st.publicKey.Some? && st.pairing.Some? && OpenedBy(s, st, openReply).1.Ok? {
      var mid := KeyedBy(s, st, openReply.value.data);
      ProtectedFrame(s, mid, 0x80, 0x11, 0, 0, challenge);
      hide ProtectedCommand, Protects, Transmit;
      var (sending, cmd) := ProtectedCommand(s, mid, 0x80, 0x11, 0, 0, challenge);
      AuthenticExactly(s, sending, authReply);
    }
  }

  lemma AuthenticExactly(s: Suite, st: Session, reply: Result<ApduResponse>)
    requires Keyed(st) && st.open
    ensures
      var r := Transmit(s, st, reply).1;
      r.Ok? && r.value.sw == 0x9000 && |r.value.data| == 32 <==>
        && reply.Ok? && reply.value.sw != 0x6982
        && Authentic(s, st.encKey.value, st.macKey.value, st.iv, reply.value.data)
  {
    hide DecryptPadded, NextIv, ReplyMeta;
  }

  // --- Reset ----------------------------------------------------------------

  /** After a reset every run goes as from a new session that knows the secret and the pairing. */
  lemma ResetStartsAnew(s: Suite, st: Session, ops: seq<Op>)
    requires Keyed(st)
    ensures Run(s, Step(s, st, Reset), ops)
      == Run(s, NEW_SESSION.(secret := st.secret, publicKey := st.publicKey, pairing := st.pairing), ops)
  {
  }
}
