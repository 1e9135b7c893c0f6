/** Secure channel version 2: an ephemeral handshake, then AES-128-CCM under a counter nonce. */
module SecureChannelV2 {
  import opened Bytes
  import opened Apdu
  import opened Channel

  const CCM_NONCE_SIZE := 13
  const PUBKEY_SIZE := 65
  const COMPRESSED_SIZE := 33
  const INS_OPEN_SECURE_CHANNEL: byte := 0x10
  const INS_SECURED_APDU: byte := 0x18
  /** The bytes of "sc_v2_ccm". */
  const PROTOCOL_LABEL: seq<byte> := [0x73, 0x63, 0x5F, 0x76, 0x32, 0x5F, 0x63, 0x63, 0x6D]

  /** The cryptographic primitives, as arbitrary functions. Points are given by their
      uncompressed encoding; `verify` covers parsing the key and the signature. */
  datatype Suite = Suite(
    seal: (seq<byte>, seq<byte>, seq<byte>) -> seq<byte>,
    unseal: (seq<byte>, seq<byte>, seq<byte>) -> Option<seq<byte>>,
    publicOf: seq<byte> -> seq<byte>,
    decodePoint: seq<byte> -> Option<seq<byte>>,
    dh: (seq<byte>, seq<byte>) -> seq<byte>,
    hkdf: (seq<byte>, seq<byte>) -> (seq<byte>, seq<byte>),
    verify: (seq<byte>, seq<byte>, seq<byte>) -> Result<()>)

  /** What is assumed of authenticated encryption with an eight-byte tag. */
  ghost predicate LawfulAead(s: Suite) {
    && (forall k, n, p :: s.unseal(k, n, s.seal(k, n, p)) == Some(p))
    && (forall k, n, p :: |s.seal(k, n, p)| == |p| + 8)
  }

  /** What is assumed of key agreement, point encoding and signatures. */
  ghost predicate LawfulHandshake(s: Suite, sign: (seq<byte>, seq<byte>) -> seq<byte>) {
    && (forall a, b :: s.dh(a, s.publicOf(b)) == s.dh(b, s.publicOf(a)))
    && (forall a :: |s.publicOf(a)| == PUBKEY_SIZE)
    && (forall a :: s.decodePoint(s.publicOf(a)) == Some(s.publicOf(a)))
    && (forall sk, m :: s.verify(s.publicOf(sk), m, sign(sk, m)) == Ok(()))
    && (forall sk, m :: |sign(sk, m)| >= 2)
  }

  /** One use of a key and nonce within a session. */
  datatype Use = Use(session: nat, key: seq<byte>, nonce: seq<byte>)

  /** The fields of a session, and a trace: the number of completed handshakes, every
      encryption performed and every decryption attempted. */
  datatype Session = Session(
    keyH2c: Option<seq<byte>>,
    keyC2h: Option<seq<byte>>,
    nonce: seq<byte>,
    pending: Option<seq<byte>>,
    open: bool,
    established: bool,
    cardIdent: Option<seq<byte>>,
    handshakes: nat,
    sealed: seq<Use>,
    unsealed: seq<Use>)

  const NEW_SESSION := Session(None, None, Zeros(CCM_NONCE_SIZE), None, false, false, None, 0, [], [])

  // --- The nonce counter ----------------------------------------------------

  function Increment(n: seq<byte>): (r: seq<byte>)
    ensures |r| == |n|
  {
    if n == [] then []
    else
      var last := n[|n| - 1];
      if last == 0xFF then Increment(n[..|n| - 1]) + [0] else n[..|n| - 1] + [last + 1]
  }

  predicate AtLimit(n: seq<byte>) {
    forall i :: 0 <= i < |n| ==> n[i] == 0xFF
  }

  /** One byte of the carry, from the right. */
  lemma CarryStep(n: seq<byte>, i: nat)
    requires i < |n|
    ensures var last := Increment(n[..i + 1]);
      last == if n[i] == 0xFF then Increment(n[..i]) + [0] else n[..i] + [n[i] + 1]
  {
    assert n[..i + 1][..i] == n[..i];
  }

  /** The counter reaches its limit exactly at its greatest value, and otherwise goes up by one. */
  lemma {:induction false} IncrementCounts(n: seq<byte>)
    ensures AtLimit(n) <==> BigEndian(n) + 1 == Pow256(|n|)
    ensures BigEndian(Increment(n)) == if AtLimit(n) then 0 else BigEndian(n) + 1
  {
    if n != [] {
      var init, last := n[..|n| - 1], n[|n| - 1];
      IncrementCounts(init);
      BigEndianBound(init);
      assert AtLimit(n) <==> AtLimit(init) && last == 0xFF;
      assert Increment(n)[..|n| - 1] == if last == 0xFF then Increment(init) else init;
    }
  }

  /** Counting up is big-endian addition modulo 256 to the counter's length. */
  lemma IncrementIsAddition(n: seq<byte>)
    ensures BigEndian(Increment(n)) == (BigEndian(n) + 1) % Pow256(|n|)
  {
    hide BigEndian, Pow256, Increment, AtLimit;
    BigEndianBound(n);
    IncrementCounts(n);
    WrapOnce(BigEndian(n) + 1, Pow256(|n|));
  }

  lemma WrapOnce(x: nat, m: nat)
    requires 0 < m && x <= m
    ensures x % m == if x == m then 0 else x
  {
    ModUnique(x, m, if x == m then 1 else 0, if x == m then 0 else x);
  }

  // --- Transitions ----------------------------------------------------------

  /** The plaintext inside a protected command. */
  function Inner(cla: byte, ins: byte, p1: byte, p2: byte, data: seq<byte>): seq<byte>
    requires |data| <= 255
  {
    [cla, ins, p1, p2, |data|] + data
  }

  function ProtectedCommand(s: Suite, st: Session, cla: byte, ins: byte, p1: byte, p2: byte, data: seq<byte>)
    : (Session, Result<ApduCommand>)
  {
    if !st.open then
      if st.established then (st, Err(Protocol))
      else (st, Ok(Command(cla, ins, p1, p2, data)))
    else if |data| > 255 then (st, Err(InvalidArgument))
    else
      match st.keyH2c
      case None => (st, Err(Crypto))
      case Some(key) =>
        var ciphertext := s.seal(key, st.nonce, Inner(cla, ins, p1, p2, data));
        (st.(pending := Some(st.nonce), nonce := Increment(st.nonce), open := !AtLimit(st.nonce),
             sealed := st.sealed + [Use(st.handshakes, key, st.nonce)]),
         Ok(Command(0x80, INS_SECURED_APDU, 0, 0, ciphertext)))
  }

  /** Decrypts with the card-to-host key, recording the attempt. */
  function Unseal(s: Suite, st: Session, nonce: seq<byte>, ciphertext: seq<byte>): (Session, Option<seq<byte>>) {
    match st.keyC2h
    case None => (st, None)
    case Some(key) =>
      (st.(unsealed := st.unsealed + [Use(st.handshakes, key, nonce)]), s.unseal(key, nonce, ciphertext))
  }

  function Transmit(s: Suite, st: Session, outcome: Result<ApduResponse>): (Session, Result<ApduResponse>) {
    var taken := st.(pending := None);
    match outcome
    case Err(e) => (taken.(open := false), Err(e))
    case Ok(resp) =>
      if resp.sw != SW_OK then (taken.(open := false), Ok(resp))
      else if !st.open then (taken, Ok(resp))
      else
        match st.pending
        case None => (taken.(open := false), Err(Protocol))
        case Some(nonce) =>
          var (after, plaintext) := Unseal(s, taken, nonce, resp.data);
          match plaintext
          case None => (after.(open := false), Err(Protocol))
          case Some(p) => (after, ParseResponse(p))
  }

  // --- Handshake ------------------------------------------------------------

  /** The fresh salt and private key of one handshake. */
  datatype Ephemeral = Ephemeral(salt: seq<byte>, priv: seq<byte>)

  function OpenRequest(s: Suite, e: Ephemeral): ApduCommand {
    Command(0x80, INS_OPEN_SECURE_CHANNEL, 0, 0, e.salt + s.publicOf(e.priv))
  }

  function Transcript(s: Suite, e: Ephemeral, cardPoint: seq<byte>): seq<byte> {
    PROTOCOL_LABEL + e.salt + s.publicOf(e.priv) + cardPoint
  }

  /** The session keys are replaced before the card's signature is checked. */
  function ProcessHandshake(s: Suite, st: Session, e: Ephemeral, data: seq<byte>): (Session, Result<()>) {
    if |data| < PUBKEY_SIZE + 2 then (st, Err(Protocol))
    else
      match s.decodePoint(data[..PUBKEY_SIZE])
      case None => (st, Err(Protocol))
      case Some(cardPoint) =>
        var keys := s.hkdf(e.salt, s.dh(e.priv, cardPoint));
        var keyed := st.(keyH2c := Some(keys.0), keyC2h := Some(keys.1));
        match st.cardIdent
        case None => (keyed, Err(Protocol))
        case Some(ident) =>
          match s.verify(ident, Transcript(s, e, cardPoint), data[PUBKEY_SIZE..])
          case Err(err) => (keyed, Err(err))
          case Ok(_) =>
            (keyed.(nonce := Zeros(CCM_NONCE_SIZE), open := true, established := true,
                    handshakes := st.handshakes + 1),
             Ok(()))
  }

  /** The whole opening; `random` is what the random source yields, `outcome` the reply. */
  function AutoOpen(s: Suite, st: Session, random: Result<Ephemeral>, outcome: Result<ApduResponse>)
    : (Session, Result<()>)
  {
    match random
    case Err(err) => (st, Err(err))
    case Ok(e) =>
      var closed := st.(open := false);
      match outcome
      case Err(err) => (closed, Err(err))
      case Ok(resp) =>
        if resp.sw != SW_OK then (closed, Err(Error.Apdu(resp.sw)))
        else ProcessHandshake(s, closed, e, resp.data)
  }

  function ResetSession(st: Session): Session {
    NEW_SESSION.(handshakes := st.handshakes, sealed := st.sealed, unsealed := st.unsealed)
  }

  /** What certificate parsing yields: the card's identity key, and the key recovered from the
      signature of its authority. */
  datatype Certificate = Certificate(identPub: seq<byte>, publicKey: seq<byte>)

  // --- The session object ---------------------------------------------------

  class SecureChannelV2 {
    const suite: Suite
    const caPublicKeys: seq<seq<byte>>
    const whitelistedCardPublicKeys: seq<seq<byte>>
    const nonceCounter: array<byte>
    var keyH2c: Option<seq<byte>>
    var keyC2h: Option<seq<byte>>
    var pendingDecryptNonce: Option<seq<byte>>
    var open: bool
    var established: bool
    var cardIdentPub: Option<seq<byte>>
    ghost var handshakes: nat
    ghost var sealed: seq<Use>
    ghost var unsealed: seq<Use>

    /** An open session has both keys and has been established. */
    ghost predicate Valid()
      reads this
    {
      && nonceCounter.Length == CCM_NONCE_SIZE
      && (open ==> keyH2c.Some? && keyC2h.Some? && established)
    }

    ghost function State(): Session
      reads this, nonceCounter
    {
      Session(keyH2c, keyC2h, nonceCounter[..], pendingDecryptNonce, open, established, cardIdentPub,
              handshakes, sealed, unsealed)
    }

    constructor (suite: Suite, caPublicKeys: seq<seq<byte>>, whitelistedCardPublicKeys: seq<seq<byte>>)
      ensures Valid() && fresh(nonceCounter)
      ensures this.suite == suite && this.caPublicKeys == caPublicKeys
      ensures this.whitelistedCardPublicKeys == whitelistedCardPublicKeys && State() == NEW_SESSION
    {
      this.suite := suite;
      this.caPublicKeys := caPublicKeys;
      this.whitelistedCardPublicKeys := whitelistedCardPublicKeys;
      nonceCounter := new byte[CCM_NONCE_SIZE](_ => 0);
      keyH2c, keyC2h, pendingDecryptNonce, cardIdentPub := None, None, None, None;
      open, established := false, false;
      handshakes, sealed, unsealed := 0, [], [];
      new;
      assert nonceCounter[..] == Zeros(CCM_NONCE_SIZE);
    }

    /** Takes what parsing the certificate of the SELECT response yields. The identity key is
        recorded before the certificate is judged: it stays if the card is not trusted. */
    method SetCardCertificate(parsed: Result<Certificate>) returns (r: Result<()>)
      requires Valid()
      modifies this
      ensures Valid()
      ensures State() == if parsed.Err? then old(State())
                         else old(State()).(cardIdent := Some(parsed.value.identPub))
      ensures parsed.Err? ==> r == Err(parsed.error)
      ensures parsed.Ok? ==>
        r == if (|parsed.value.publicKey| == COMPRESSED_SIZE && parsed.value.publicKey in caPublicKeys)
                || parsed.value.identPub in whitelistedCardPublicKeys
             then Ok(()) else Err(Protocol)
    {
      if parsed.Err? {
        return Err(parsed.error);
      }
      var cert := parsed.value;
      cardIdentPub := Some(cert.identPub);
      var whitelisted := cert.identPub in whitelistedCardPublicKeys;
      var caTrusted := |cert.publicKey| == COMPRESSED_SIZE && cert.publicKey in caPublicKeys;
      if !caTrusted && !whitelisted {
        return Err(Protocol);
      }
      return Ok(());
    }

    /** Adds one to the counter from its last byte on, closing the session on wrap-around. */
    method IncrementNonce()
      requires Valid()
      modifies this`open, nonceCounter
      ensures nonceCounter[..] == Increment(old(nonceCounter[..]))
      ensures open == (old(open) && !AtLimit(old(nonceCounter[..])))
    {
      hide Increment;
      ghost var was := nonceCounter[..];
      assert was[..CCM_NONCE_SIZE] == was && Increment(was) == Increment(was) + nonceCounter[CCM_NONCE_SIZE..];
      var i := CCM_NONCE_SIZE;
      while i > 0
        invariant 0 <= i <= CCM_NONCE_SIZE
        invariant forall j :: i <= j < CCM_NONCE_SIZE ==> was[j] == 0xFF
        invariant nonceCounter[..i] == was[..i]
        invariant Increment(was) == Increment(was[..i]) + nonceCounter[i..]
        invariant open == old(open)
      {
        i := i - 1;
        assert was[i] == was[..i + 1][i] == nonceCounter[i];
        CarryStep(was, i);
        label before:
        nonceCounter[i] := (nonceCounter[i] as int + 1) % 256;
        assert nonceCounter[i..] == [nonceCounter[i]] + old@before(nonceCounter[i + 1..]);
        if nonceCounter[i] != 0 {
          assert nonceCounter[..] == nonceCounter[..i] + nonceCounter[i..];
          return;
        }
      }
      assert Increment([]) == [];
      open := false;
    }

    method EncryptCcm(plaintext: seq<byte>) returns (r: Result<seq<byte>>)
      requires Valid()
      modifies this`sealed
      ensures Valid()
      ensures r == match keyH2c case None => Err(Protocol) case Some(k) => Ok(suite.seal(k, nonceCounter[..], plaintext))
      ensures sealed == match keyH2c case None => old(sealed)
                        case Some(k) => old(sealed) + [Use(handshakes, k, nonceCounter[..])]
    {
      if keyH2c.None? {
        return Err(Protocol);
      }
      sealed := sealed + [Use(handshakes, keyH2c.value, nonceCounter[..])];
      return Ok(suite.seal(keyH2c.value, nonceCounter[..], plaintext));
    }

    method DecryptCcm(ciphertext: seq<byte>, nonce: seq<byte>) returns (r: Option<seq<byte>>)
      requires Valid()
      modifies this`unsealed
      ensures Valid()
      ensures (State(), r) == Unseal(suite, old(State()), nonce, ciphertext)
    {
      if keyC2h.None? {
        return None;
      }
      unsealed := unsealed + [Use(handshakes, keyC2h.value, nonce)];
      return suite.unseal(keyC2h.value, nonce, ciphertext);
    }

    method Protect(cla: byte, ins: byte, p1: byte, p2: byte, data: seq<byte>) returns (r: Result<ApduCommand>)
      requires Valid()
      modifies this, nonceCounter
      ensures Valid()
      ensures (State(), r) == ProtectedCommand(suite, old(State()), cla, ins, p1, p2, data)
    {
      if !open {
        if established {
          return Err(Protocol);
        }
        return Ok(Command(cla, ins, p1, p2, data));
      }
      if |data| > 255 {
        return Err(InvalidArgument);
      }
      var inner: seq<byte> := [cla, ins, p1, p2, |data|];
      inner := inner + data;
      var ciphertext := EncryptCcm(inner);
      if ciphertext.Err? {
        return Err(Crypto);
      }
      pendingDecryptNonce := Some(nonceCounter[..]);
      IncrementNonce();
      return Ok(Command(0x80, INS_SECURED_APDU, 0, 0, ciphertext.value));
    }

    method TransmitCommand(channel: CardChannel, cmd: ApduCommand) returns (r: Result<ApduResponse>)
      requires Valid()
      modifies this, channel
      ensures Valid()
      ensures channel.sent == old(channel.sent) + [cmd]
      ensures (State(), r) == Transmit(suite, old(State()), channel.respond(channel.sent))
    {
      var nonceForDecrypt := pendingDecryptNonce;
      pendingDecryptNonce := None;
      var outcome := channel.Send(cmd);
      if outcome.Err? {
        open := false;
        return Err(outcome.error);
      }
      var resp := outcome.value;
      if resp.sw != SW_OK {
        open := false;
        return Ok(resp);
      }
      if !open {
        return Ok(resp);
      }
      if nonceForDecrypt.None? {
        open := false;
        return Err(Protocol);
      }
      var plaintext := DecryptCcm(resp.data, nonceForDecrypt.value);
      if plaintext.None? {
        open := false;
        return Err(Protocol);
      }
      return ParseResponse(plaintext.value);
    }

    method OpenSecureChannel(channel: CardChannel, data: seq<byte>) returns (r: Result<ApduResponse>)
      requires Valid()
      modifies this, channel
      ensures Valid() && State() == old(State()).(open := false)
      ensures channel.sent == old(channel.sent) + [Command(0x80, INS_OPEN_SECURE_CHANNEL, 0, 0, data)]
      ensures r == channel.respond(channel.sent)
    {
      open := false;
      r := channel.Send(Command(0x80, INS_OPEN_SECURE_CHANNEL, 0, 0, data));
    }

    method HandleHandshakeResponse(e: Ephemeral, data: seq<byte>) returns (r: Result<()>)
      requires Valid() && !open
      modifies this, nonceCounter
      ensures Valid()
      ensures (State(), r) == ProcessHandshake(suite, old(State()), e, data)
    {
      if |data| < PUBKEY_SIZE + 2 {
        return Err(Protocol);
      }
      var cardPoint := suite.decodePoint(data[..PUBKEY_SIZE]);
      if cardPoint.None? {
        return Err(Protocol);
      }
      var secret := suite.dh(e.priv, cardPoint.value);
      var keys := suite.hkdf(e.salt, secret);
      keyH2c := Some(keys.0);
      keyC2h := Some(keys.1);
      if cardIdentPub.None? {
        return Err(Protocol);
      }
      var verified := suite.verify(cardIdentPub.value, Transcript(suite, e, cardPoint.value), data[PUBKEY_SIZE..]);
      if verified.Err? {
        return Err(verified.error);
      }
      forall i | 0 <= i < nonceCounter.Length {
        nonceCounter[i] := 0;
      }
      assert nonceCounter[..] == Zeros(CCM_NONCE_SIZE);
      open := true;
      established := true;
      handshakes := handshakes + 1;
      return Ok(());
    }

    method Open(channel: CardChannel, random: Result<Ephemeral>) returns (r: Result<()>)
      requires Valid()
      modifies this, nonceCounter, channel
      ensures Valid()
      ensures channel.sent == old(channel.sent) + if random.Ok? then [OpenRequest(suite, random.value)] else []
      ensures (State(), r) == AutoOpen(suite, old(State()), random, channel.respond(channel.sent))
    {
      if random.Err? {
        return Err(random.error);
      }
      var e := random.value;
      var outcome := OpenSecureChannel(channel, e.salt + suite.publicOf(e.priv));
      if outcome.Err? {
        return Err(outcome.error);
      }
      var checked := CheckOk(outcome.value);
      if checked.Err? {
        return Err(checked.error);
      }
      r := HandleHandshakeResponse(e, checked.value.data);
    }

    method Reset()
      requires Valid()
      modifies this, nonceCounter
      ensures Valid() && State() == ResetSession(old(State()))
    {
      open := false;
      established := false;
      keyH2c := None;
      keyC2h := None;
      forall i | 0 <= i < nonceCounter.Length {
        nonceCounter[i] := 0;
      }
      assert nonceCounter[..] == Zeros(CCM_NONCE_SIZE);
      pendingDecryptNonce := None;
      cardIdentPub := None;
    }
  }
}
