/** Safety of a version 2 session over whole runs: every interleaving of its operations,
    against any channel. Nonce uniqueness per key is required by RFC 3610, section 2.1. */
module NonceSafety {
  import opened Bytes
  import opened Apdu
  import opened SecureChannelV2

  /** One call on the session, with what the environment answers. */
  datatype Op =
    | Protect(cla: byte, ins: byte, p1: byte, p2: byte, data: seq<byte>)
    | Exchange(outcome: Result<ApduResponse>)
    | Opening(random: Result<Ephemeral>, reply: Result<ApduResponse>)
    | OpenRequestOnly
    | Identify(ident: seq<byte>)
    | Reset

  function Step(s: Suite, st: Session, op: Op): Session {
    match op
    case Protect(cla, ins, p1, p2, data) => ProtectedCommand(s, st, cla, ins, p1, p2, data).0
    case Exchange(outcome) => Transmit(s, st, outcome).0
    case Opening(random, reply) => AutoOpen(s, st, random, reply).0
    case OpenRequestOnly => st.(open := false)
    case Identify(ident) => st.(cardIdent := Some(ident))
    case Reset => ResetSession(st)
  }

  function Run(s: Suite, st: Session, ops: seq<Op>): Session
    decreases |ops|
  {
    if ops == [] then st else Run(s, Step(s, st, ops[0]), ops[1..])
  }

  /** How many of the uses belong to a session. */
  function Count(uses: seq<Use>, session: nat): nat {
    if uses == [] then 0
    else Count(uses[..|uses| - 1], session) + if uses[|uses| - 1].session == session then 1 else 0
  }

  // --- The encryption side --------------------------------------------------

  /** Each use carries, as its nonce, the number of earlier uses in its session. */
  ghost predicate Numbered(uses: seq<Use>) {
    forall i :: 0 <= i < |uses| ==>
      && |uses[i].nonce| == CCM_NONCE_SIZE
      && BigEndian(uses[i].nonce) == Count(uses[..i], uses[i].session)
  }

  ghost predicate OneKeyPerSession(uses: seq<Use>) {
    forall i, j :: 0 <= i < |uses| && 0 <= j < |uses| && uses[i].session == uses[j].session
      ==> uses[i].key == uses[j].key
  }

  ghost predicate UpTo(uses: seq<Use>, session: nat) {
    forall i :: 0 <= i < |uses| ==> uses[i].session <= session
  }

  ghost predicate UsesKey(uses: seq<Use>, session: nat, key: seq<byte>) {
    forall i :: 0 <= i < |uses| && uses[i].session == session ==> uses[i].key == key
  }

  ghost predicate SessionInvariant(st: Session) {
    && |st.nonce| == CCM_NONCE_SIZE
    && (st.open ==> st.keyH2c.Some? && st.keyC2h.Some? && st.established)
    && Numbered(st.sealed)
    && OneKeyPerSession(st.sealed)
    && UpTo(st.sealed, st.handshakes)
    && (st.open ==> BigEndian(st.nonce) == Count(st.sealed, st.handshakes))
    && (st.open ==> UsesKey(st.sealed, st.handshakes, st.keyH2c.value))
  }

  lemma CountSnoc(uses: seq<Use>, u: Use, session: nat)
    ensures Count(uses + [u], session) == Count(uses, session) + if u.session == session then 1 else 0
  {
    assert (uses + [u])[..|uses|] == uses;
  }

  lemma {:induction false} CountAbove(uses: seq<Use>, low: nat, session: nat)
    requires UpTo(uses, low) && low < session
    ensures Count(uses, session) == 0
  {
    if uses != [] {
      CountAbove(uses[..|uses| - 1], low, session);
    }
  }

  lemma {:induction false} CountGrows(uses: seq<Use>, i: nat, j: nat)
    requires i < j <= |uses|
    ensures Count(uses[..i], uses[i].session) < Count(uses[..j], uses[i].session)
    decreases j
  {
    assert uses[..j][..j - 1] == uses[..j - 1];
    if i < j - 1 {
      CountGrows(uses, i, j - 1);
    }
  }

  lemma NumberedSnoc(uses: seq<Use>, u: Use)
    requires Numbered(uses)
    requires |u.nonce| == CCM_NONCE_SIZE && BigEndian(u.nonce) == Count(uses, u.session)
    ensures Numbered(uses + [u])
  {
    hide Count, BigEndian;
    var more := uses + [u];
    forall i | 0 <= i < |more|
      ensures |more[i].nonce| == CCM_NONCE_SIZE && BigEndian(more[i].nonce) == Count(more[..i], more[i].session)
    {
      assert more[..i] == uses[..i];
      assert i == |uses| ==> uses[..i] == uses;
    }
  }

  lemma ProtectKeepsInvariant(s: Suite, st: Session, cla: byte, ins: byte, p1: byte, p2: byte, data: seq<byte>)
    requires SessionInvariant(st)
    ensures SessionInvariant(ProtectedCommand(s, st, cla, ins, p1, p2, data).0)
  {
    hide BigEndian, Count, Numbered, Increment, Inner, AtLimit, Pow256;
    if st.open && |data| <= 255 {
      var u := Use(st.handshakes, st.keyH2c.value, st.nonce);
      NumberedSnoc(st.sealed, u);
      IncrementCounts(st.nonce);
      CountSnoc(st.sealed, u, st.handshakes);
    }
  }

  lemma OpeningKeepsInvariant(s: Suite, st: Session, random: Result<Ephemeral>, reply: Result<ApduResponse>)
    requires SessionInvariant(st)
    ensures SessionInvariant(AutoOpen(s, st, random, reply).0)
  {
    hide BigEndian, Count, Numbered, Transcript;
    CountAbove(st.sealed, st.handshakes, st.handshakes + 1);
    BigEndianZeros(CCM_NONCE_SIZE);
  }

  lemma StepKeepsInvariant(s: Suite, st: Session, op: Op)
    requires SessionInvariant(st)
    ensures SessionInvariant(Step(s, st, op))
  {
    hide BigEndian, Count, Numbered;
    match op
    case Protect(cla, ins, p1, p2, data) => ProtectKeepsInvariant(s, st, cla, ins, p1, p2, data);
    case Opening(random, reply) => OpeningKeepsInvariant(s, st, random, reply);
    case _ =>
  }

  lemma {:induction false} RunKeepsInvariant(s: Suite, st: Session, ops: seq<Op>)
    requires SessionInvariant(st)
    ensures SessionInvariant(Run(s, st, ops))
    decreases |ops|
  {
    if ops != [] {
      StepKeepsInvariant(s, st, ops[0]);
      RunKeepsInvariant(s, Step(s, st, ops[0]), ops[1..]);
    }
  }

  /** In every run, the k-th encryption of a session is made with nonce k - 1, and two
      encryptions of one session share the key but never the nonce. */
  lemma NonceNeverReused(s: Suite, ops: seq<Op>, i: nat, j: nat)
    requires i < j < |Run(s, NEW_SESSION, ops).sealed|
    ensures var uses := Run(s, NEW_SESSION, ops).sealed;
      && BigEndian(uses[i].nonce) == Count(uses[..i], uses[i].session)
      && (uses[i].session == uses[j].session ==>
            uses[i].key == uses[j].key && uses[i].nonce != uses[j].nonce)
  {
    RunKeepsInvariant(s, NEW_SESSION, ops);
    CountGrows(Run(s, NEW_SESSION, ops).sealed, i, j);
  }

  /** If handshakes never agree on the same key twice, no key is ever used twice with one nonce. */
  lemma KeyAndNonceNeverReused(s: Suite, ops: seq<Op>, i: nat, j: nat)
    requires i < j < |Run(s, NEW_SESSION, ops).sealed|
    requires var uses := Run(s, NEW_SESSION, ops).sealed;
      uses[i].session != uses[j].session ==> uses[i].key != uses[j].key
    ensures var uses := Run(s, NEW_SESSION, ops).sealed;
      (uses[i].key, uses[i].nonce) != (uses[j].key, uses[j].nonce)
  {
    NonceNeverReused(s, ops, i, j);
  }

  lemma {:induction false} LastUse(uses: seq<Use>, session: nat) returns (i: nat)
    requires Count(uses, session) > 0
    ensures i < |uses| && uses[i].session == session
    ensures Count(uses[..i], session) == Count(uses, session) - 1
  {
    i := |uses| - 1;
    if uses[i].session != session {
      i := LastUse(uses[..|uses| - 1], session);
      assert uses[..|uses| - 1][..i] == uses[..i];
    }
  }

  /** No session encrypts more than 2^104 times, and a session that did is closed. */
  lemma SessionsAreBounded(s: Suite, ops: seq<Op>, session: nat)
    ensures var st := Run(s, NEW_SESSION, ops);
      && Count(st.sealed, session) <= Pow256(CCM_NONCE_SIZE)
      && (Count(st.sealed, st.handshakes) == Pow256(CCM_NONCE_SIZE) ==> !st.open)
  {
    hide Count, BigEndian, Pow256;
    RunKeepsInvariant(s, NEW_SESSION, ops);
    var st := Run(s, NEW_SESSION, ops);
    if Count(st.sealed, session) > 0 {
      var i := LastUse(st.sealed, session);
      BigEndianBound(st.sealed[i].nonce);
    }
    BigEndianBound(st.nonce);
  }

  // --- No fallback to plaintext ---------------------------------------------

  ghost predicate WithoutReset(ops: seq<Op>) {
    forall i :: 0 <= i < |ops| ==> !ops[i].Reset?
  }

  ghost predicate WithoutOpening(ops: seq<Op>) {
    forall i :: 0 <= i < |ops| ==> !ops[i].Opening?
  }

  lemma {:induction false} EstablishedUntilReset(s: Suite, st: Session, ops: seq<Op>)
    requires st.established && WithoutReset(ops)
    ensures Run(s, st, ops).established
    decreases |ops|
  {
    if ops != [] {
      assert !ops[0].Reset?;
      assert Step(s, st, ops[0]).established;
      EstablishedUntilReset(s, Step(s, st, ops[0]), ops[1..]);
    }
  }

  /** Once an opening has succeeded, every command yielded on any later run without a reset
      is the encryption of the request under a use recorded for it, or an error. */
  lemma NoPlaintextFallback(
    s: Suite, st: Session, random: Result<Ephemeral>, reply: Result<ApduResponse>, ops: seq<Op>,
    cla: byte, ins: byte, p1: byte, p2: byte, data: seq<byte>)
    requires AutoOpen(s, st, random, reply).1.Ok? && WithoutReset(ops)
    ensures
      var at := Run(s, AutoOpen(s, st, random, reply).0, ops);
      var (after, r) := ProtectedCommand(s, at, cla, ins, p1, p2, data);
      r.Err? || (|data| <= 255 && exists u: Use ::
        && after.sealed == at.sealed + [u]
        && u.session == at.handshakes
        && r.value == Command(0x80, INS_SECURED_APDU, 0, 0, s.seal(u.key, u.nonce, Inner(cla, ins, p1, p2, data))))
  {
    EstablishedUntilReset(s, AutoOpen(s, st, random, reply).0, ops);
  }

  /** Whether some opening has succeeded since the last reset, given whether one had before. */
  function OpenedSinceReset(s: Suite, st: Session, ops: seq<Op>, before: bool): bool
    decreases |ops|
  {
    if ops == [] then before
    else
      var now := match ops[0]
        case Reset => false
        case Opening(random, reply) => before || AutoOpen(s, st, random, reply).1.Ok?
        case _ => before;
      OpenedSinceReset(s, Step(s, st, ops[0]), ops[1..], now)
  }

  lemma {:induction false} EstablishedExactly(s: Suite, st: Session, ops: seq<Op>)
    ensures Run(s, st, ops).established == OpenedSinceReset(s, st, ops, st.established)
    decreases |ops|
  {
    if ops != [] {
      EstablishedExactly(s, Step(s, st, ops[0]), ops[1..]);
    }
  }

  /** Exactly when a command goes out as it is: when the session is closed and no opening has
      succeeded since the last reset. */
  lemma PlaintextExactly(s: Suite, ops: seq<Op>, cla: byte, ins: byte, p1: byte, p2: byte, data: seq<byte>)
    requires LawfulAead(s)
    ensures var at := Run(s, NEW_SESSION, ops);
      ProtectedCommand(s, at, cla, ins, p1, p2, data).1 == Ok(Command(cla, ins, p1, p2, data))
      <==> !at.open && !OpenedSinceReset(s, NEW_SESSION, ops, false)
  {
    hide Run, OpenedSinceReset;
    EstablishedExactly(s, NEW_SESSION, ops);
    var at := Run(s, NEW_SESSION, ops);
    if at.open && |data| <= 255 && at.keyH2c.Some? {
      assert |s.seal(at.keyH2c.value, at.nonce, Inner(cla, ins, p1, p2, data))| == |data| + 13;
    }
  }

  /** A closed session that was once established refuses every command until it is opened
      again or reset; so it does after its last nonce. */
  lemma {:induction false} ClosedRefuses(
    s: Suite, st: Session, ops: seq<Op>, cla: byte, ins: byte, p1: byte, p2: byte, data: seq<byte>)
    requires !st.open && st.established && WithoutReset(ops) && WithoutOpening(ops)
    ensures ProtectedCommand(s, Run(s, st, ops), cla, ins, p1, p2, data) == (Run(s, st, ops), Err(Protocol))
    decreases |ops|
  {
    if ops != [] {
      assert !ops[0].Reset? && !ops[0].Opening?;
      var next := Step(s, st, ops[0]);
      assert !next.open && next.established;
      ClosedRefuses(s, next, ops[1..], cla, ins, p1, p2, data);
    }
  }

  /** From its opening request on, an opening leaves the session open exactly when it
      succeeds; if it fails before, on randomness, it changes nothing. */
  lemma OpenExactlyOnSuccess(s: Suite, st: Session, random: Result<Ephemeral>, reply: Result<ApduResponse>)
    ensures var (after, r) := AutoOpen(s, st, random, reply);
      if random.Ok? then after.open == r.Ok? else r.Err? && after == st
  {
  }

  // --- When an opening succeeds ---------------------------------------------

  /** The key of the card's certificate vouches for the point in an answer: its signature is
      accepted over the label, the host's salt and point, and the card's point. */
  predicate Vouched(s: Suite, st: Session, e: Ephemeral, resp: ApduResponse) {
    && resp.sw == 0x9000 && |resp.data| >= 67 && st.cardIdent.Some?
    && var point := s.decodePoint(resp.data[..65]);
    && point.Some?
    && s.verify(st.cardIdent.value, PROTOCOL_LABEL + e.salt + s.publicOf(e.priv) + point.value, resp.data[65..]).Ok?
  }

  /** Exactly when an opening succeeds, for every session, draw and outcome of its request: when
      the key of the certificate vouches for the answer. The session is then a fresh one under
      the keys agreed with the point vouched for. Otherwise it is closed, with its flags, nonces
      and identity as before, and the failure of the transport, or a status that is not OK, is
      reported as it is. The keys are replaced as soon as the point decodes. */
  lemma OpeningExactly(s: Suite, st: Session, e: Ephemeral, outcome: Result<ApduResponse>)
    ensures
      var (after, r) := AutoOpen(s, st, Ok(e), outcome);
      && (r.Ok? <==> outcome.Ok? && Vouched(s, st, e, outcome.value))
      && (r.Ok? ==>
            var point := s.decodePoint(outcome.value.data[..65]).value;
            var (hostKey, cardKey) := s.hkdf(e.salt, s.dh(e.priv, point));
            after == st.(keyH2c := Some(hostKey), keyC2h := Some(cardKey), nonce := Zeros(13), open := true,
                         established := true, handshakes := st.handshakes + 1))
      && (r.Err? ==> after == st.(keyH2c := after.keyH2c, keyC2h := after.keyC2h, open := false))
    ensures
      var r := AutoOpen(s, st, Ok(e), outcome).1;
      && (outcome.Err? ==> r == Err(outcome.error))
      && (outcome.Ok? && outcome.value.sw != 0x9000 ==> r == Err(Error.Apdu(outcome.value.sw)))
    ensures
      var after := AutoOpen(s, st, Ok(e), outcome).0;
      if outcome.Ok? && outcome.value.sw == 0x9000 && |outcome.value.data| >= 67
        && s.decodePoint(outcome.value.data[..65]).Some?
      then
        var (hostKey, cardKey) := s.hkdf(e.salt, s.dh(e.priv, s.decodePoint(outcome.value.data[..65]).value));
        (after.keyH2c, after.keyC2h) == (Some(hostKey), Some(cardKey))
      else (after.keyH2c, after.keyC2h) == (st.keyH2c, st.keyC2h)
  {
  }

  // --- What the transport says ----------------------------------------------

  /** What the transport says of a command reaches the caller as it is, unless an open session
      has an OK reply to decrypt: a failure and a status that is not OK close the session, and a
      closed session passes on every reply. In all cases the pending nonce is consumed. */
  lemma TransportIsReported(s: Suite, st: Session, outcome: Result<ApduResponse>)
    ensures
      var (after, r) := Transmit(s, st, outcome);
      && after.pending.None?
      && (outcome.Err? || outcome.value.sw != 0x9000 || !st.open ==>
            r == outcome && after == st.(open := false, pending := None))
  {
  }

  // --- Reset ----------------------------------------------------------------

  /** Sessions that differ in their traces only. */
  predicate SameButTrace(a: Session, b: Session) {
    a == b.(handshakes := a.handshakes, sealed := a.sealed, unsealed := a.unsealed)
  }

  lemma StepIgnoresTrace(s: Suite, a: Session, b: Session, op: Op)
    requires SameButTrace(a, b)
    ensures SameButTrace(Step(s, a, op), Step(s, b, op))
  {
    hide AtLimit, Increment, Inner, Transcript, ParseResponse, AutoOpen, Transmit;
    match op
    case Exchange(outcome) => TransmitIgnoresTrace(s, a, b, outcome);
    case Opening(random, reply) => OpeningIgnoresTrace(s, a, b, random, reply);
    case _ =>
  }

  lemma TransmitIgnoresTrace(s: Suite, a: Session, b: Session, outcome: Result<ApduResponse>)
    requires SameButTrace(a, b)
    ensures SameButTrace(Transmit(s, a, outcome).0, Transmit(s, b, outcome).0)
  {
    hide ParseResponse;
  }

  lemma OpeningIgnoresTrace(s: Suite, a: Session, b: Session, random: Result<Ephemeral>, reply: Result<ApduResponse>)
    requires SameButTrace(a, b)
    ensures SameButTrace(AutoOpen(s, a, random, reply).0, AutoOpen(s, b, random, reply).0)
  {
    hide Transcript;
  }

  lemma {:induction false} RunIgnoresTrace(s: Suite, a: Session, b: Session, ops: seq<Op>)
    requires SameButTrace(a, b)
    ensures SameButTrace(Run(s, a, ops), Run(s, b, ops))
    decreases |ops|
  {
    if ops != [] {
      hide Step, SameButTrace;
      StepIgnoresTrace(s, a, b, ops[0]);
      RunIgnoresTrace(s, Step(s, a, ops[0]), Step(s, b, ops[0]), ops[1..]);
    }
  }

  /** After a reset every run goes as from a new session, whatever was before. */
  lemma ResetStartsAnew(s: Suite, st: Session, ops: seq<Op>)
    ensures SameButTrace(Run(s, Step(s, st, Reset), ops), Run(s, NEW_SESSION, ops))
  {
    RunIgnoresTrace(s, Step(s, st, Reset), NEW_SESSION, ops);
  }
}
