/** The decryption side of a version 2 session: exactly when a nonce can be handed to decryption
    twice in one session. */
module DecryptionSafety {
  import opened Bytes
  import opened Apdu
  import opened SecureChannelV2
  import opened NonceSafety
  import opened SuiteInstances

  ghost predicate Distinct(uses: seq<Use>) {
    forall i, j :: 0 <= i < j < |uses| && uses[i].session == uses[j].session
      ==> uses[i].nonce != uses[j].nonce
  }

  ghost predicate Unused(uses: seq<Use>, session: nat) {
    forall i :: 0 <= i < |uses| ==> uses[i].session != session
  }

  /** The uses of a session are below a bound, except for the last nonce there is. */
  ghost predicate BelowOrLast(uses: seq<Use>, session: nat, bound: nat) {
    forall i :: 0 <= i < |uses| && uses[i].session == session
      ==> BigEndian(uses[i].nonce) < bound || AtLimit(uses[i].nonce)
  }

  /** What every run keeps, orderly or not. */
  ghost predicate WellFormed(st: Session) {
    && SessionInvariant(st)
    && UpTo(st.unsealed, st.handshakes)
    && (st.pending.Some? ==> |st.pending.value| == CCM_NONCE_SIZE)
  }

  lemma StepKeepsForm(s: Suite, st: Session, op: Op)
    requires WellFormed(st)
    ensures WellFormed(Step(s, st, op))
  {
    StepKeepsInvariant(s, st, op);
    NonceLength(st);
    hide SessionInvariant, AtLimit, Increment, Inner, ParseResponse, ProtectedCommand, Transmit, AutoOpen;
    match op
    case Protect(cla, ins, p1, p2, data) => ProtectTrace(s, st, cla, ins, p1, p2, data);
    case Exchange(outcome) => TransmitTrace(s, st, outcome);
    case Opening(random, reply) => OpeningTrace(s, st, random, reply);
    case _ =>
  }

  lemma ProtectTrace(s: Suite, st: Session, cla: byte, ins: byte, p1: byte, p2: byte, data: seq<byte>)
    ensures var after := ProtectedCommand(s, st, cla, ins, p1, p2, data).0;
      && after.unsealed == st.unsealed && after.handshakes == st.handshakes
      && (after.pending == st.pending || after.pending == Some(st.nonce))
  {
    hide AtLimit, Increment, Inner;
  }

  lemma TransmitTrace(s: Suite, st: Session, outcome: Result<ApduResponse>)
    ensures var after := Transmit(s, st, outcome).0;
      && after.pending == None && after.handshakes == st.handshakes
      && (after.unsealed == st.unsealed
          || (st.keyC2h.Some? && st.pending.Some?
              && after.unsealed == st.unsealed + [Use(st.handshakes, st.keyC2h.value, st.pending.value)]))
  {
    hide ParseResponse;
  }

  lemma OpeningTrace(s: Suite, st: Session, random: Result<Ephemeral>, reply: Result<ApduResponse>)
    ensures var after := AutoOpen(s, st, random, reply).0;
      after.unsealed == st.unsealed && after.handshakes >= st.handshakes && after.pending == st.pending
  {
    hide Transcript;
  }

  lemma NonceLength(st: Session)
    requires SessionInvariant(st)
    ensures |st.nonce| == CCM_NONCE_SIZE
  {
  }

  lemma {:induction false} RunKeepsForm(s: Suite, st: Session, ops: seq<Op>)
    requires WellFormed(st)
    ensures WellFormed(Run(s, st, ops))
    decreases |ops|
  {
    if ops != [] {
      hide WellFormed, Step;
      StepKeepsForm(s, st, ops[0]);
      RunKeepsForm(s, Step(s, st, ops[0]), ops[1..]);
    }
  }

  // --- Orderly runs ---------------------------------------------------------

  /** A pending nonce that a new session is going to count up to. The session closes when its
      counter gets to the last nonce, before it decrypts with it. */
  predicate Stale(pending: Option<seq<byte>>) {
    pending.Some? && !AtLimit(pending.value)
  }

  /** Runs in which no handshake completes while a stale nonce is pending. */
  ghost predicate Orderly(s: Suite, st: Session, ops: seq<Op>)
    decreases |ops|
  {
    ops == [] || (
      && (ops[0].Opening? && AutoOpen(s, st, ops[0].random, ops[0].reply).1.Ok? ==> !Stale(st.pending))
      && Orderly(s, Step(s, st, ops[0]), ops[1..]))
  }

  /** No nonce has been decrypted with twice in a session, and none will be on any orderly
      continuation. */
  ghost predicate AlwaysDistinct(s: Suite, st: Session) {
    forall ops :: Orderly(s, st, ops) ==> Distinct(Run(s, st, ops).unsealed)
  }

  /** Every decryption so far used its own nonce, and the pending nonce is above those of this
      session, or is the last one and the session has not decrypted. */
  ghost predicate DecryptionInvariant(st: Session) {
    && WellFormed(st)
    && Distinct(st.unsealed)
    && (st.open ==> match st.pending
        case None => BelowOrLast(st.unsealed, st.handshakes, BigEndian(st.nonce))
        case Some(p) =>
          if AtLimit(p) then Unused(st.unsealed, st.handshakes)
          else BigEndian(p) < BigEndian(st.nonce) && BelowOrLast(st.unsealed, st.handshakes, BigEndian(p)))
  }

  lemma ProtectKeepsDecryption(s: Suite, st: Session, cla: byte, ins: byte, p1: byte, p2: byte, data: seq<byte>)
    requires DecryptionInvariant(st)
    ensures DecryptionInvariant(ProtectedCommand(s, st, cla, ins, p1, p2, data).0)
  {
    StepKeepsForm(s, st, Protect(cla, ins, p1, p2, data));
    hide BigEndian, WellFormed, Increment, Inner, AtLimit, Distinct, Unused, BelowOrLast, Pow256;
    IncrementCounts(st.nonce);
    var n := BigEndian(st.nonce);
    BelowHigher(st.unsealed, st.handshakes, n, n);
    if st.pending.Some? {
      BelowHigher(st.unsealed, st.handshakes, BigEndian(st.pending.value), n);
    }
  }

  lemma BelowHigher(uses: seq<Use>, session: nat, low: nat, high: nat)
    ensures Unused(uses, session) ==> BelowOrLast(uses, session, high)
    ensures BelowOrLast(uses, session, low) && low <= high ==> BelowOrLast(uses, session, high)
  {
    hide BigEndian, AtLimit;
  }

  /** One more decryption, with a nonce that the session has not used. */
  lemma OneMoreUse(uses: seq<Use>, last: Use, bound: nat)
    requires Distinct(uses)
    requires
      if AtLimit(last.nonce) then Unused(uses, last.session)
      else BigEndian(last.nonce) < bound && BelowOrLast(uses, last.session, BigEndian(last.nonce))
    ensures Distinct(uses + [last]) && BelowOrLast(uses + [last], last.session, bound)
  {
    hide BigEndian, AtLimit;
  }

  lemma ExchangeKeepsDecryption(s: Suite, st: Session, outcome: Result<ApduResponse>)
    requires DecryptionInvariant(st)
    ensures DecryptionInvariant(Transmit(s, st, outcome).0)
  {
    StepKeepsForm(s, st, Exchange(outcome));
    hide BigEndian, WellFormed, ParseResponse, AtLimit, Distinct, BelowOrLast, Unused;
    if st.open && st.pending.Some? && outcome.Ok? && outcome.value.sw == SW_OK && st.keyC2h.Some? {
      var use := Use(st.handshakes, st.keyC2h.value, st.pending.value);
      OneMoreUse(st.unsealed, use, BigEndian(st.nonce));
      assert Transmit(s, st, outcome).0.unsealed == st.unsealed + [use];
    }
  }

  lemma OpeningKeepsDecryption(s: Suite, st: Session, random: Result<Ephemeral>, reply: Result<ApduResponse>)
    requires DecryptionInvariant(st) || (WellFormed(st) && Distinct(st.unsealed) && AutoOpen(s, st, random, reply).1.Ok?)
    requires AutoOpen(s, st, random, reply).1.Ok? ==> !Stale(st.pending)
    ensures DecryptionInvariant(AutoOpen(s, st, random, reply).0)
  {
    StepKeepsForm(s, st, Opening(random, reply));
    OpenExactlyOnSuccess(s, st, random, reply);
    hide BigEndian, SessionInvariant, Distinct, AtLimit, Transcript;
  }

  lemma StepKeepsDecryption(s: Suite, st: Session, op: Op)
    requires DecryptionInvariant(st) && Orderly(s, st, [op])
    ensures DecryptionInvariant(Step(s, st, op))
  {
    match op {
      case Protect(cla, ins, p1, p2, data) => ProtectKeepsDecryption(s, st, cla, ins, p1, p2, data);
      case Exchange(outcome) => ExchangeKeepsDecryption(s, st, outcome);
      case Opening(random, reply) => OpeningKeepsDecryption(s, st, random, reply);
      case _ =>
        StepKeepsForm(s, st, op);
        hide WellFormed, BelowOrLast, BigEndian;
    }
  }

  lemma {:induction false} RunKeepsDecryption(s: Suite, st: Session, ops: seq<Op>)
    requires DecryptionInvariant(st) && Orderly(s, st, ops)
    ensures DecryptionInvariant(Run(s, st, ops))
    decreases |ops|
  {
    if ops != [] {
      hide Step, DecryptionInvariant, AutoOpen;
      StepKeepsDecryption(s, st, ops[0]);
      RunKeepsDecryption(s, Step(s, st, ops[0]), ops[1..]);
    }
  }

  // --- What a stale nonce leads to ------------------------------------------

  ghost predicate Idle(st: Session) {
    && st.open && st.pending.None? && |st.nonce| == CCM_NONCE_SIZE
    && st.keyH2c.Some? && st.keyC2h.Some?
  }

  /** One command and its reply, properly sealed under the nonce of the command. */
  function Round(s: Suite, st: Session): seq<Op>
    requires st.keyC2h.Some?
  {
    [Protect(0, 0, 0, 0, []), Exchange(Ok(ApduResponse(s.seal(st.keyC2h.value, st.nonce, []), SW_OK)))]
  }

  lemma RoundCounts(s: Suite, st: Session)
    requires LawfulAead(s) && Idle(st) && !AtLimit(st.nonce)
    ensures
      var after := Run(s, st, Round(s, st));
      && Idle(after) && after.nonce == Increment(st.nonce)
      && (after.handshakes, after.keyC2h) == (st.handshakes, st.keyC2h)
      && after.unsealed == st.unsealed + [Use(st.handshakes, st.keyC2h.value, st.nonce)]
  {
    hide AtLimit, Increment, Inner, ParseResponse;
    var ops := Round(s, st);
    assert ops[1..] == [ops[1]] && ops[1..][1..] == [];
    var mid := Step(s, st, ops[0]);
    assert Run(s, st, ops) == Run(s, mid, [ops[1]]) == Run(s, Step(s, mid, ops[1]), []);
  }

  lemma {:induction false} RunAppend(s: Suite, st: Session, first: seq<Op>, rest: seq<Op>)
    ensures Run(s, st, first + rest) == Run(s, Run(s, st, first), rest)
    decreases |first|
  {
    if first == [] {
      assert first + rest == rest;
    } else {
      hide Step;
      assert (first + rest)[1..] == first[1..] + rest;
      RunAppend(s, Step(s, st, first[0]), first[1..], rest);
    }
  }

  /** A session in use can be brought to count up by any number short of its limit. */
  lemma {:induction false} Rounds(s: Suite, st: Session, k: nat) returns (ops: seq<Op>)
    requires LawfulAead(s) && Idle(st) && BigEndian(st.nonce) + k < Pow256(CCM_NONCE_SIZE)
    ensures WithoutOpening(ops)
    ensures
      var after := Run(s, st, ops);
      && Idle(after) && BigEndian(after.nonce) == BigEndian(st.nonce) + k
      && after.handshakes == st.handshakes && st.unsealed <= after.unsealed
    decreases k
  {
    hide Run, BigEndian, Pow256, AtLimit, Increment, LawfulAead;
    if k == 0 {
      ops := [];
      RunNothing(s, st);
    } else {
      IncrementCounts(st.nonce);
      RoundCounts(s, st);
      var rest := Rounds(s, Run(s, st, Round(s, st)), k - 1);
      ops := Round(s, st) + rest;
      RunAppend(s, st, Round(s, st), rest);
    }
  }

  lemma RunNothing(s: Suite, st: Session)
    ensures Run(s, st, []) == st
  {
  }

  lemma {:induction false} WithoutOpeningIsOrderly(s: Suite, st: Session, ops: seq<Op>)
    requires WithoutOpening(ops)
    ensures Orderly(s, st, ops)
    decreases |ops|
  {
    if ops != [] {
      hide Step;
      assert !ops[0].Opening?;
      WithoutOpeningIsOrderly(s, Step(s, st, ops[0]), ops[1..]);
    }
  }

  /** The first reply in an open session with a stale pending nonce. */
  lemma StaleDecryption(s: Suite, st: Session, n: seq<byte>)
    requires LawfulAead(s) && st.open && st.pending == Some(n)
    requires st.keyH2c.Some? && st.keyC2h.Some? && |st.nonce| == CCM_NONCE_SIZE
    ensures
      var after := Run(s, st, [Exchange(Ok(ApduResponse(s.seal(st.keyC2h.value, n, []), SW_OK)))]);
      && Idle(after)
      && (after.nonce, after.handshakes, after.keyC2h) == (st.nonce, st.handshakes, st.keyC2h)
      && after.unsealed == st.unsealed + [Use(st.handshakes, st.keyC2h.value, n)]
  {
    hide ParseResponse;
    var op := Exchange(Ok(ApduResponse(s.seal(st.keyC2h.value, n, []), SW_OK)));
    assert Run(s, st, [op]) == Run(s, Step(s, st, op), []);
  }

  /** An open session with a zero counter and a stale nonce of its size pending can be brought
      to decrypt with that nonce twice. */
  lemma StaleNonceIsReused(s: Suite, st: Session) returns (ops: seq<Op>)
    requires LawfulAead(s) && st.open && Stale(st.pending) && |st.pending.value| == CCM_NONCE_SIZE
    requires st.keyH2c.Some? && st.keyC2h.Some? && st.nonce == Zeros(CCM_NONCE_SIZE)
    ensures Orderly(s, st, ops) && !Distinct(Run(s, st, ops).unsealed)
  {
    hide Run, BigEndian, Pow256, AtLimit, Increment, LawfulAead, Orderly;
    var n := st.pending.value;
    var first := [Exchange(Ok(ApduResponse(s.seal(st.keyC2h.value, n, []), SW_OK)))];
    StaleDecryption(s, st, n);
    BigEndianZeros(CCM_NONCE_SIZE);
    BigEndianBound(n);
    var at := Run(s, st, first);
    var rounds := Rounds(s, at, BigEndian(n));
    var counted := Run(s, at, rounds);
    BigEndianInjective(counted.nonce, n);
    RoundCounts(s, counted);
    ops := first + rounds + Round(s, counted);
    RunAppend(s, st, first, rounds);
    RunAppend(s, st, first + rounds, Round(s, counted));
    WithoutOpeningIsOrderly(s, st, ops);
    var uses := Run(s, st, ops).unsealed;
    assert uses[|st.unsealed|] == at.unsealed[|st.unsealed|];
    assert uses[|uses| - 1].nonce == n == uses[|st.unsealed|].nonce;
    assert uses[|uses| - 1].session == uses[|st.unsealed|].session;
  }

  // --- The exact condition --------------------------------------------------

  lemma StaleHandshake(s: Suite, st: Session, random: Result<Ephemeral>, reply: Result<ApduResponse>)
    requires LawfulAead(s) && WellFormed(st) && Stale(st.pending)
    requires AutoOpen(s, st, random, reply).1.Ok?
    ensures !AlwaysDistinct(s, AutoOpen(s, st, random, reply).0)
  {
    hide SessionInvariant, AtLimit, Orderly, Run, Distinct;
    var ops := StaleNonceIsReused(s, AutoOpen(s, st, random, reply).0);
  }

  lemma InvariantSuffices(s: Suite, st: Session)
    requires DecryptionInvariant(st)
    ensures AlwaysDistinct(s, st)
  {
    forall ops | Orderly(s, st, ops)
      ensures Distinct(Run(s, st, ops).unsealed)
    {
      RunKeepsDecryption(s, st, ops);
    }
  }

  /** After any run that has decrypted with no nonce twice, and one more handshake that
      completes: no nonce can be decrypted with twice from then on, exactly if none was
      pending, or the last one. */
  lemma HandshakeKeepsDecryption(s: Suite, ops: seq<Op>, random: Result<Ephemeral>, reply: Result<ApduResponse>)
    requires LawfulAead(s) && Distinct(Run(s, NEW_SESSION, ops).unsealed)
    requires AutoOpen(s, Run(s, NEW_SESSION, ops), random, reply).1.Ok?
    ensures
      var st := Run(s, NEW_SESSION, ops);
      AlwaysDistinct(s, AutoOpen(s, st, random, reply).0)
      <==> st.pending.None? || AtLimit(st.pending.value)
  {
    NewSessionIsOrderly();
    RunKeepsForm(s, NEW_SESSION, ops);
    hide Run, AutoOpen, AlwaysDistinct, WellFormed, DecryptionInvariant, AtLimit;
    var st := Run(s, NEW_SESSION, ops);
    if Stale(st.pending) {
      StaleHandshake(s, st, random, reply);
    } else {
      OpeningKeepsDecryption(s, st, random, reply);
      InvariantSuffices(s, AutoOpen(s, st, random, reply).0);
    }
  }

  lemma NewSessionIsOrderly()
    ensures DecryptionInvariant(NEW_SESSION) && WellFormed(NEW_SESSION)
  {
  }

  /** A run that is not orderly has a first step after which a nonce can be reused. */
  lemma {:induction false} DisorderIsUnsafe(s: Suite, st: Session, ops: seq<Op>) returns (k: nat)
    requires LawfulAead(s) && DecryptionInvariant(st) && !Orderly(s, st, ops)
    ensures k <= |ops| && !AlwaysDistinct(s, Run(s, st, ops[..k]))
    decreases |ops|
  {
    hide AlwaysDistinct, DecryptionInvariant, AtLimit, LawfulAead;
    var next := Step(s, st, ops[0]);
    if ops[0].Opening? && AutoOpen(s, st, ops[0].random, ops[0].reply).1.Ok? && Stale(st.pending) {
      k := 1;
      InvariantHasForm(st);
      StaleHandshake(s, st, ops[0].random, ops[0].reply);
      assert ops[..1][1..] == [];
      assert Run(s, st, ops[..1]) == Run(s, next, []);
    } else {
      StepKeepsDecryption(s, st, ops[0]);
      k := DisorderIsUnsafe(s, next, ops[1..]);
      k := k + 1;
      assert ops[..k][1..] == ops[1..][..k - 1];
    }
  }

  lemma InvariantHasForm(st: Session)
    requires DecryptionInvariant(st)
    ensures WellFormed(st)
  {
  }

  lemma {:induction false} OrderlyPrefix(s: Suite, st: Session, ops: seq<Op>, k: nat)
    requires Orderly(s, st, ops) && k <= |ops|
    ensures Orderly(s, st, ops[..k])
    decreases k
  {
    if k > 0 {
      hide Step, AutoOpen, AtLimit;
      assert ops[..k][1..] == ops[1..][..k - 1];
      OrderlyPrefix(s, Step(s, st, ops[0]), ops[1..], k - 1);
    }
  }

  /** A run is orderly exactly when after each of its steps no nonce has been, and on no
      orderly continuation can be, decrypted with twice in one session. */
  lemma DecryptionNonceUsedOnce(s: Suite, ops: seq<Op>)
    ensures LawfulAead(s) ==>
      (Orderly(s, NEW_SESSION, ops)
       <==> forall k :: 0 <= k <= |ops| ==> AlwaysDistinct(s, Run(s, NEW_SESSION, ops[..k])))
    ensures Orderly(s, NEW_SESSION, ops) ==> Distinct(Run(s, NEW_SESSION, ops).unsealed)
  {
    NewSessionIsOrderly();
    hide Run, Orderly, AlwaysDistinct, DecryptionInvariant, LawfulAead;
    if Orderly(s, NEW_SESSION, ops) {
      forall k | 0 <= k <= |ops|
        ensures AlwaysDistinct(s, Run(s, NEW_SESSION, ops[..k]))
      {
        OrderlyPrefix(s, NEW_SESSION, ops, k);
        RunKeepsDecryption(s, NEW_SESSION, ops[..k]);
        InvariantSuffices(s, Run(s, NEW_SESSION, ops[..k]));
      }
      RunKeepsDecryption(s, NEW_SESSION, ops);
      InvariantIsDistinct(Run(s, NEW_SESSION, ops));
    } else if LawfulAead(s) {
      var k := DisorderIsUnsafe(s, NEW_SESSION, ops);
    }
  }

  lemma InvariantIsDistinct(st: Session)
    requires DecryptionInvariant(st)
    ensures Distinct(st.unsealed)
  {
  }

  // --- A concrete run -------------------------------------------------------

  const FRESH := Ok(Ephemeral([], []))
  const ACCEPTED := Ok(ApduResponse(Zeros(PUBKEY_SIZE + 2), SW_OK))
  const SEALED := Ok(ApduResponse(Zeros(8), SW_OK))

  /** A handshake, a command, and another handshake before the reply to the command. */
  const OVERTAKEN := [
    Identify([]), Opening(FRESH, ACCEPTED), Protect(0, 0, 0, 0, []), Opening(FRESH, ACCEPTED)]

  /** Then the reply to that command, and one more command with its reply. */
  const STALE_RUN := OVERTAKEN + [Exchange(SEALED)] + [Protect(0, 0, 0, 0, []), Exchange(SEALED)]

  lemma Overtaken()
    ensures
      var st := Run(TOY_SUITE, NEW_SESSION, OVERTAKEN);
      && st.open && st.pending == Some(Zeros(CCM_NONCE_SIZE)) && st.nonce == Zeros(CCM_NONCE_SIZE)
      && st.keyH2c == Some(Zeros(16)) && st.keyC2h == Some(Zeros(16))
      && st.unsealed == [] && st.handshakes == 2
  {
    hide Increment, AtLimit;
    var ops := OVERTAKEN;
    assert ops[1..][1..] == ops[2..] && ops[2..][1..] == ops[3..] && ops[3..][1..] == [];
    var st1 := Step(TOY_SUITE, NEW_SESSION, ops[0]);
    var st2 := Step(TOY_SUITE, st1, ops[1]);
    var st3 := Step(TOY_SUITE, st2, ops[2]);
    assert Run(TOY_SUITE, NEW_SESSION, ops) == Run(TOY_SUITE, st2, ops[2..]);
    assert Run(TOY_SUITE, st2, ops[2..]) == Run(TOY_SUITE, Step(TOY_SUITE, st3, ops[3]), []);
    assert st3.pending == Some(Zeros(CCM_NONCE_SIZE));
  }

  /** In this run the second session decrypts with nonce zero twice. */
  lemma StaleNonceIsDecryptedTwice()
    ensures var st := Run(TOY_SUITE, NEW_SESSION, STALE_RUN);
      var use := Use(st.handshakes, Zeros(16), Zeros(CCM_NONCE_SIZE));
      st.unsealed == [use, use]
  {
    hide Run, LawfulAead, Increment;
    ToySuiteIsLawful();
    Overtaken();
    var zero := Zeros(CCM_NONCE_SIZE);
    assert zero[0] == 0;
    assert TOY_SUITE.seal(Zeros(16), zero, []) == Zeros(8);
    var st4 := Run(TOY_SUITE, NEW_SESSION, OVERTAKEN);
    StaleDecryption(TOY_SUITE, st4, zero);
    var st5 := Run(TOY_SUITE, st4, [Exchange(SEALED)]);
    RoundCounts(TOY_SUITE, st5);
    assert Round(TOY_SUITE, st5) == [Protect(0, 0, 0, 0, []), Exchange(SEALED)];
    RunAppend(TOY_SUITE, NEW_SESSION, OVERTAKEN, [Exchange(SEALED)]);
    RunAppend(TOY_SUITE, NEW_SESSION, OVERTAKEN + [Exchange(SEALED)], Round(TOY_SUITE, st5));
    var st7 := Run(TOY_SUITE, st5, Round(TOY_SUITE, st5));
    var use := Use(2, Zeros(16), zero);
    assert st5.unsealed == [use] && st7.unsealed == [use] + [use];
    assert Run(TOY_SUITE, NEW_SESSION, STALE_RUN) == st7;
  }
}
