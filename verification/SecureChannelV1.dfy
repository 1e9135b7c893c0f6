/** Secure channel version 1: a pairing-based handshake, then AES-CBC with a CBC-MAC whose
    value is also the next initialisation vector. */
module SecureChannelV1 {
  import opened Bytes
  import opened Apdu
  import opened Cbc
  import opened Channel

  const SC_SECRET_LENGTH := 32
  /** The size of an uncompressed public key. */
  const PUBLIC_KEY_SIZE := 65
  const INS_OPEN_SECURE_CHANNEL: byte := 0x10
  const INS_MUTUALLY_AUTHENTICATE: byte := 0x11

  /** The block cipher, the key agreement, and the hash that derives both session keys from the
      shared secret, the pairing key and the card's salt. Points are given by their uncompressed
      encoding. */
  datatype Suite = Suite(
    cipher: Cipher,
    publicOf: seq<byte> -> seq<byte>,
    decodePoint: seq<byte> -> Option<seq<byte>>,
    dh: (seq<byte>, seq<byte>) -> seq<byte>,
    kdf: (seq<byte>, seq<byte>, seq<byte>) -> (seq<byte>, seq<byte>))

  /** What is assumed of key agreement and point encoding. */
  ghost predicate LawfulAgreement(s: Suite) {
    && (forall a, b :: s.dh(a, s.publicOf(b)) == s.dh(b, s.publicOf(a)))
    && (forall a :: |s.publicOf(a)| == PUBLIC_KEY_SIZE)
    && (forall a :: s.decodePoint(s.publicOf(a)) == Some(s.publicOf(a)))
  }

  datatype Pairing = Pairing(key: seq<byte>, index: byte)

  datatype Session = Session(
    secret: Option<seq<byte>>,
    publicKey: Option<seq<byte>>,
    iv: Block,
    pairing: Option<Pairing>,
    encKey: Option<seq<byte>>,
    macKey: Option<seq<byte>>,
    open: bool,
    established: bool)

  const NEW_SESSION := Session(None, None, Zeros(16), None, None, None, false, false)

  /** An open session has both keys, so that reading them cannot fail. */
  predicate Keyed(st: Session) {
    st.open ==> st.encKey.Some? && st.macKey.Some?
  }

  // --- Transitions ----------------------------------------------------------

  /** The authenticated header of a command: its fields and the length of its data. */
  function CommandMeta(cla: byte, ins: byte, p1: byte, p2: byte, length: nat): Block {
    [cla, ins, p1, p2, length % 256] + Zeros(11)
  }

  /** The authenticated header of a reply: the low byte of the length of its data. */
  function ReplyMeta(length: nat): Block {
    [length % 256] + Zeros(15)
  }

  function NextIv(s: Suite, macKey: seq<byte>, meta: Block, encrypted: seq<byte>): Block {
    Mac(s.cipher, macKey, Zeros(16), meta + encrypted)
  }

  function ProtectedCommand(s: Suite, st: Session, cla: byte, ins: byte, p1: byte, p2: byte, data: seq<byte>)
    : (r: (Session, Result<ApduCommand>))
    requires Keyed(st)
    ensures Keyed(r.0) && r.0.open == st.open && r.0.established == st.established
  {
    if !st.open then
      if st.established then (st, Err(Protocol))
      else (st, Ok(Command(cla, ins, p1, p2, data)))
    else
      var encrypted := EncryptPadded(s.cipher, st.encKey.value, st.iv, data);
      var length := |encrypted| + BLOCK_SIZE;
      if length > 255 then (st, Err(InvalidArgument))
      else
        var iv := NextIv(s, st.macKey.value, CommandMeta(cla, ins, p1, p2, length), encrypted);
        (st.(iv := iv), Ok(Command(cla, ins, p1, p2, iv + encrypted)))
  }

  /** The reply of an open session: decrypted under the current block, then authenticated,
      which also moves the block on, even when authentication fails. */
  function OpenReply(s: Suite, st: Session, data: seq<byte>): (r: (Session, Result<ApduResponse>))
    requires Keyed(st) && st.open
    ensures Keyed(r.0) && r.0.established == st.established
  {
    if |data| < BLOCK_SIZE then (st.(open := false), Err(Protocol))
    else
      var mac, encrypted := data[..BLOCK_SIZE], data[BLOCK_SIZE..];
      match DecryptPadded(s.cipher, st.encKey.value, st.iv, encrypted)
      case None => (st.(open := false), Err(Protocol))
      case Some(plain) =>
        var iv := NextIv(s, st.macKey.value, ReplyMeta(|data|), encrypted);
        if iv != mac then (st.(iv := iv, open := false), Err(Protocol))
        else (st.(iv := iv), ParseResponse(plain))
  }

  function Transmit(s: Suite, st: Session, outcome: Result<ApduResponse>): (r: (Session, Result<ApduResponse>))
    requires Keyed(st)
    ensures Keyed(r.0) && r.0.established == st.established
  {
    match outcome
    case Err(e) => (st.(open := false), Err(e))
    case Ok(resp) =>
      if st.open && resp.sw != SW_SECURITY_CONDITION_NOT_SATISFIED then OpenReply(s, st, resp.data)
      else (st.(open := false), Ok(resp))
  }

  // --- Handshake ------------------------------------------------------------

  function AgreeSecret(s: Suite, st: Session, priv: seq<byte>, cardKey: seq<byte>): Session
    requires s.decodePoint(cardKey).Some?
  {
    st.(secret := Some(s.dh(priv, s.decodePoint(cardKey).value)), publicKey := Some(s.publicOf(priv)))
  }

  function OpenRequest(publicKey: seq<byte>, index: byte): ApduCommand {
    Command(0x80, INS_OPEN_SECURE_CHANNEL, index, 0, publicKey)
  }

  function ProcessOpenResponse(s: Suite, st: Session, data: seq<byte>): (r: (Session, Result<()>))
    requires Keyed(st)
    ensures Keyed(r.0) && r.0.established == st.established
  {
    if st.secret.None? || st.pairing.None? || |data| < SC_SECRET_LENGTH + BLOCK_SIZE then (st, Err(Protocol))
    else
      var keys := s.kdf(st.secret.value, st.pairing.value.key, data[..SC_SECRET_LENGTH]);
      (st.(iv := data[SC_SECRET_LENGTH..SC_SECRET_LENGTH + BLOCK_SIZE],
           encKey := Some(keys.0), macKey := Some(keys.1), open := true),
       Ok(()))
  }

  /** The session after the opening reply, if opening gets that far. */
  function OpenedBy(s: Suite, st: Session, reply: Result<ApduResponse>): (r: (Session, Result<()>))
    requires Keyed(st)
    ensures Keyed(r.0) && r.0.established == st.established && r.0.open == r.1.Ok?
  {
    var closed := st.(open := false);
    match reply
    case Err(e) => (closed, Err(e))
    case Ok(resp) =>
      if resp.sw != SW_OK then (closed, Err(Error.Apdu(resp.sw)))
      else ProcessOpenResponse(s, closed, resp.data)
  }

  /** Mutual authentication over the session keys; `random` is the host's challenge. */
  function Authenticate(s: Suite, st: Session, random: Result<seq<byte>>, reply: Result<ApduResponse>)
    : (r: (Session, Result<ApduResponse>))
    requires Keyed(st)
    ensures Keyed(r.0) && r.0.established == st.established
  {
    match random
    case Err(e) => (st, Err(e))
    case Ok(challenge) =>
      var (protecting, cmd) := ProtectedCommand(s, st, 0x80, INS_MUTUALLY_AUTHENTICATE, 0, 0, challenge);
      match cmd
      case Err(e) => (protecting, Err(e))
      case Ok(_) => Transmit(s, protecting, reply)
  }

  function AutoOpen(
    s: Suite, st: Session, openReply: Result<ApduResponse>, random: Result<seq<byte>>, authReply: Result<ApduResponse>)
    : (r: (Session, Result<()>))
    requires Keyed(st)
    ensures Keyed(r.0) && (r.0.established <==> st.established || r.1.Ok?)
  {
    if st.publicKey.None? || st.pairing.None? then (st, Err(Protocol))
    else
      var (opening, processed) := OpenedBy(s, st, openReply);
      if processed.Err? then (opening, processed)
      else
        var (after, r) := Authenticate(s, opening, random, authReply);
        match r
        case Err(e) => (after, Err(e))
        case Ok(resp) =>
          if resp.sw != SW_OK then (after, Err(Error.Apdu(resp.sw)))
          else if |resp.data| != SC_SECRET_LENGTH then (after, Err(Protocol))
          else (after.(established := true), Ok(()))
  }

  /** The commands an opening sends. */
  function AutoOpenSends(s: Suite, st: Session, openReply: Result<ApduResponse>, random: Result<seq<byte>>)
    : seq<ApduCommand>
    requires Keyed(st)
  {
    if st.publicKey.None? || st.pairing.None? then []
    else
      var request := OpenRequest(st.publicKey.value, st.pairing.value.index);
      var (opening, processed) := OpenedBy(s, st, openReply);
      if processed.Err? || random.Err? then [request]
      else
        match ProtectedCommand(s, opening, 0x80, INS_MUTUALLY_AUTHENTICATE, 0, 0, random.value).1
        case Err(_) => [request]
        case Ok(cmd) => [request, cmd]
  }

  function ResetSession(st: Session): Session {
    st.(iv := Zeros(16), encKey := None, macKey := None, open := false, established := false)
  }

  // --- The session object ---------------------------------------------------

  class SecureChannelV1 {
    const suite: Suite
    const iv: array<byte>
    var secret: Option<seq<byte>>
    var publicKey: Option<seq<byte>>
    var pairing: Option<Pairing>
    var encKey: Option<seq<byte>>
    var macKey: Option<seq<byte>>
    var open: bool
    var established: bool

    ghost predicate Valid()
      reads this
    {
      iv.Length == BLOCK_SIZE && (open ==> encKey.Some? && macKey.Some?)
    }

    ghost function State(): Session
      reads this, iv
      requires Valid()
    {
      Session(secret, publicKey, iv[..], pairing, encKey, macKey, open, established)
    }

    constructor (suite: Suite)
      ensures Valid() && fresh(iv)
      ensures this.suite == suite && State() == NEW_SESSION
    {
      this.suite := suite;
      iv := new byte[BLOCK_SIZE](_ => 0);
      secret, publicKey, pairing, encKey, macKey := None, None, None, None, None;
      open, established := false, false;
      new;
      assert iv[..] == Zeros(16);
    }

    /** Key agreement of a fresh private key with the card's static key. The source panics on a
        card key that is not a point. */
    method GenerateSecret(priv: seq<byte>, cardKey: seq<byte>)
      requires Valid() && suite.decodePoint(cardKey).Some?
      modifies this
      ensures Valid() && State() == AgreeSecret(suite, old(State()), priv, cardKey)
    {
      publicKey := Some(suite.publicOf(priv));
      secret := Some(suite.dh(priv, suite.decodePoint(cardKey).value));
    }

    method SetPairing(pairing: Pairing)
      requires Valid()
      modifies this
      ensures Valid() && State() == old(State()).(pairing := Some(pairing))
    {
      this.pairing := Some(pairing);
    }

    /** Chains every whole block of the header and data through the cipher, in place. */
    method UpdateIv(meta: Block, data: seq<byte>)
      requires Valid() && macKey.Some?
      modifies iv
      ensures iv[..] == NextIv(suite, macKey.value, meta, data)
    {
      var key := macKey.value;
      var block := new byte[BLOCK_SIZE](_ => 0);
      var combined := meta + data;
      var numBlocks := |combined| / BLOCK_SIZE;
      assert block[..] == Zeros(16) && combined[..0] == [];
      for i := 0 to numBlocks
        invariant block[..] == Mac(suite.cipher, key, Zeros(16), combined[..16 * i])
      {
        var start := i * BLOCK_SIZE;
        var chunk := combined[start..start + BLOCK_SIZE];
        ghost var running := block[..];
        for j := 0 to BLOCK_SIZE
          invariant block[..j] == XorBlock(running, chunk)[..j]
          invariant block[j..] == running[j..]
        {
          assert block[j] == running[j];
          block[j] := Xor(block[j], chunk[j]);
        }
        var mixed: Block := block[..];
        assert mixed == XorBlock(running, chunk);
        var next := suite.cipher.encrypt(key, mixed);
        MacSnoc(suite.cipher, key, Zeros(16), combined[..16 * i], chunk);
        assert combined[..16 * (i + 1)] == combined[..16 * i] + chunk;
        forall j | 0 <= j < BLOCK_SIZE {
          block[j] := next[j];
        }
        assert block[..] == next;
      }
      MacIgnoresRest(suite.cipher, key, Zeros(16), combined);
      forall j | 0 <= j < BLOCK_SIZE {
        iv[j] := block[j];
      }
      assert iv[..] == block[..];
    }

    method Protect(cla: byte, ins: byte, p1: byte, p2: byte, data: seq<byte>) returns (r: Result<ApduCommand>)
      requires Valid()
      modifies iv
      ensures Valid()
      ensures (State(), r) == ProtectedCommand(suite, old(State()), cla, ins, p1, p2, data)
    {
      if !open {
        if established {
          return Err(Protocol);
        }
        return Ok(Command(cla, ins, p1, p2, data));
      }
      var encrypted := EncryptPadded(suite.cipher, encKey.value, iv[..], data);
      if |encrypted| + BLOCK_SIZE > 255 {
        return Err(InvalidArgument);
      }
      var meta: Block := [cla, ins, p1, p2, |encrypted| + BLOCK_SIZE] + Zeros(11);
      UpdateIv(meta, encrypted);
      return Ok(Command(cla, ins, p1, p2, iv[..] + encrypted));
    }

    method TransmitCommand(channel: CardChannel, cmd: ApduCommand) returns (r: Result<ApduResponse>)
      requires Valid()
      modifies this, iv, channel
      ensures Valid()
      ensures channel.sent == old(channel.sent) + [cmd]
      ensures (State(), r) == Transmit(suite, old(State()), channel.respond(channel.sent))
    {
      var outcome := channel.Send(cmd);
      if outcome.Err? {
        open := false;
        return Err(outcome.error);
      }
      var resp := outcome.value;
      if resp.sw == SW_SECURITY_CONDITION_NOT_SATISFIED {
        open := false;
      }
      if open {
        var data := resp.data;
        if |data| < BLOCK_SIZE {
          open := false;
          return Err(Protocol);
        }
        var mac, encrypted := data[..BLOCK_SIZE], data[BLOCK_SIZE..];
        var plain := DecryptPadded(suite.cipher, encKey.value, iv[..], encrypted);
        if plain.None? {
          open := false;
          return Err(Protocol);
        }
        UpdateIv(ReplyMeta(|data|), encrypted);
        if iv[..] != mac {
          open := false;
          return Err(Protocol);
        }
        return ParseResponse(plain.value);
      } else {
        return Ok(resp);
      }
    }

    method OpenSecureChannel(channel: CardChannel, index: byte, data: seq<byte>) returns (r: Result<ApduResponse>)
      requires Valid()
      modifies this, channel
      ensures Valid() && State() == old(State()).(open := false)
      ensures channel.sent == old(channel.sent) + [OpenRequest(data, index)]
      ensures r == channel.respond(channel.sent)
    {
      open := false;
      r := channel.Send(OpenRequest(data, index));
    }

    method HandleOpenResponse(data: seq<byte>) returns (r: Result<()>)
      requires Valid()
      modifies this, iv
      ensures Valid()
      ensures (State(), r) == ProcessOpenResponse(suite, old(State()), data)
    {
      if secret.None? {
        return Err(Protocol);
      }
      if pairing.None? {
        return Err(Protocol);
      }
      if |data| < SC_SECRET_LENGTH + BLOCK_SIZE {
        return Err(Protocol);
      }
      var keys := suite.kdf(secret.value, pairing.value.key, data[..SC_SECRET_LENGTH]);
      var ivData := data[SC_SECRET_LENGTH..];
      forall j | 0 <= j < BLOCK_SIZE {
        iv[j] := ivData[j];
      }
      assert iv[..] == data[SC_SECRET_LENGTH..SC_SECRET_LENGTH + BLOCK_SIZE];
      encKey := Some(keys.0);
      macKey := Some(keys.1);
      open := true;
      return Ok(());
    }

    method MutuallyAuthenticate(channel: CardChannel, random: Result<seq<byte>>) returns (r: Result<ApduResponse>)
      requires Valid()
      modifies this, iv, channel
      ensures Valid()
      ensures (State(), r) == Authenticate(suite, old(State()), random, channel.respond(channel.sent))
      ensures channel.sent == old(channel.sent) +
        if random.Err? then []
        else match ProtectedCommand(suite, old(State()), 0x80, INS_MUTUALLY_AUTHENTICATE, 0, 0, random.value).1
             case Err(_) => []
             case Ok(cmd) => [cmd]
    {
      if random.Err? {
        return Err(random.error);
      }
      var cmd := Protect(0x80, INS_MUTUALLY_AUTHENTICATE, 0, 0, random.value);
      if cmd.Err? {
        return Err(cmd.error);
      }
      r := TransmitCommand(channel, cmd.value);
    }

    method Open(channel: CardChannel, random: Result<seq<byte>>) returns (r: Result<()>)
      requires Valid()
      modifies this, iv, channel
      ensures Valid()
      ensures var sends := AutoOpenSends(suite, old(State()), FirstReply(channel, old(channel.sent), old(State())), random);
        channel.sent == old(channel.sent) + sends
      ensures (State(), r) == AutoOpen(suite, old(State()),
        FirstReply(channel, old(channel.sent), old(State())), random, channel.respond(channel.sent))
    {
      hide ProtectedCommand, Transmit, OpenReply;
      if publicKey.None? {
        return Err(Protocol);
      }
      if pairing.None? {
        return Err(Protocol);
      }
      var response := OpenSecureChannel(channel, pairing.value.index, publicKey.value);
      if response.Err? {
        return Err(response.error);
      }
      var checked := CheckOk(response.value);
      if checked.Err? {
        return Err(checked.error);
      }
      var processed := HandleOpenResponse(checked.value.data);
      if processed.Err? {
        return Err(processed.error);
      }
      response := MutuallyAuthenticate(channel, random);
      if response.Err? {
        return Err(response.error);
      }
      checked := CheckOk(response.value);
      if checked.Err? {
        return Err(checked.error);
      }
      if |checked.value.data| != SC_SECRET_LENGTH {
        return Err(Protocol);
      }
      established := true;
      return Ok(());
    }

    /** What the channel answers to the opening request, if one is sent. */
    static ghost function FirstReply(channel: CardChannel, sent: seq<ApduCommand>, st: Session): Result<ApduResponse> {
      if st.publicKey.None? || st.pairing.None? then Err(Protocol)
      else channel.respond(sent + [OpenRequest(st.publicKey.value, st.pairing.value.index)])
    }

    method Reset()
      requires Valid()
      modifies this, iv
      ensures Valid() && State() == ResetSession(old(State()))
    {
      open := false;
      established := false;
      encKey := None;
      macKey := None;
      forall j | 0 <= j < BLOCK_SIZE {
        iv[j] := 0;
      }
      assert iv[..] == Zeros(16);
    }
  }
}
