/** The command set's protected send, over either channel version, and the chunked NDEF write
    built on it. */
module Keycard {
  import opened Bytes
  import opened Apdu
  import opened Channel
  import opened Link
  import V1 = SecureChannelV1
  import V2 = SecureChannelV2
  import L1 = LockstepV1
  import L2 = LockstepV2

  const INS_STORE_DATA: byte := 0xE2
  const INS_SET_NDEF: byte := 0xF3
  const STORE_DATA_P1_NDEF: byte := 0x01
  const NDEF_MAX_CHUNK_SIZE := 220

  /** The primitives of both versions. */
  datatype Suites = Suites(v1: V1.Suite, v2: V2.Suite)

  datatype Host = Host1(st1: V1.Session) | Host2(st2: V2.Session) {
    predicate Keyed() { Host1? ==> V1.Keyed(st1) }
    predicate Open() { if Host1? then st1.open else st2.open }
    predicate Established() { if Host1? then st1.established else st2.established }
  }

  type Transport = seq<ApduCommand> -> Result<ApduResponse>

  function SendProtected(x: Suites, h: Host, respond: Transport, sent: seq<ApduCommand>, req: Request)
    : (r: (Host, seq<ApduCommand>, Result<ApduResponse>))
    requires h.Keyed()
    ensures r.0.Keyed()
  {
    match h
    case Host1(st) =>
      var (after, sent', r) := L1.SendProtected(x.v1, st, respond, sent, req);
      (Host1(after), sent', r)
    case Host2(st) =>
      var (after, sent', r) := L2.SendProtected(x.v2, st, respond, sent, req);
      (Host2(after), sent', r)
  }

  // --- NDEF -----------------------------------------------------------------

  predicate HasLengthPrefix(data: seq<byte>) {
    |data| >= 2 && |data| - 2 == Word(data[0], data[1])
  }

  /** Puts a two-byte length in front, unless there is one already. */
  function Prefixed(ndef: seq<byte>): (data: seq<byte>)
    ensures data != []
  {
    if HasLengthPrefix(ndef) then ndef else [|ndef| / 256 % 256, |ndef| % 256] + ndef
  }

  /** The second parameter: the 16-bit offset in words, cut to a byte. */
  function OffsetParameter(off: nat): byte {
    off % 0x1_0000 / 4 % 256
  }

  function Min(a: nat, b: nat): nat {
    if a < b then a else b
  }

  /** The request that stores the chunk at an offset. */
  function ChunkRequest(data: seq<byte>, off: nat): (req: Request)
    requires off < |data|
    ensures 0 < |req.data| <= NDEF_MAX_CHUNK_SIZE
  {
    Request(INS_STORE_DATA, STORE_DATA_P1_NDEF, OffsetParameter(off),
            data[off..Min(off + NDEF_MAX_CHUNK_SIZE, |data|)])
  }

  /** Stores the chunks from an offset on, up to the first that is not acknowledged. */
  function WriteChunks(x: Suites, h: Host, respond: Transport, sent: seq<ApduCommand>, data: seq<byte>, off: nat)
    : (r: (Host, seq<ApduCommand>, Result<ApduResponse>))
    requires h.Keyed() && off < |data|
    ensures r.0.Keyed()
    decreases |data| - off
  {
    var req := ChunkRequest(data, off);
    var (after, sent', r) := SendProtected(x, h, respond, sent, req);
    if r.Err? || r.value.sw != SW_OK || off + |req.data| == |data| then (after, sent', r)
    else WriteChunks(x, after, respond, sent', data, off + |req.data|)
  }

  /** A card of major version 3 or later takes chunks; an older one the whole data. */
  function SetNdef(x: Suites, h: Host, respond: Transport, sent: seq<ApduCommand>, appVersion: Option<nat>, ndef: seq<byte>)
    : (Host, seq<ApduCommand>, Result<ApduResponse>)
    requires h.Keyed()
  {
    var major := if appVersion.Some? then appVersion.value / 256 else 0;
    if major > 2 then WriteChunks(x, h, respond, sent, Prefixed(ndef), 0)
    else SendProtected(x, h, respond, sent, Request(INS_SET_NDEF, 0, 0, ndef))
  }

  // --- The command set ------------------------------------------------------

  datatype SecureChannel = Channel1(c1: V1.SecureChannelV1) | Channel2(c2: V2.SecureChannelV2)

  class KeycardCommandSet {
    const suites: Suites
    const channel: CardChannel
    const secureChannel: SecureChannel
    /** The version in the application info, if the applet was selected. */
    var appVersion: Option<nat>

    ghost function Footprint(): set<object> {
      {channel} + match secureChannel
        case Channel1(c) => {c, c.iv}
        case Channel2(c) => {c, c.nonceCounter}
    }

    ghost predicate Valid()
      reads Footprint()
    {
      match secureChannel
      case Channel1(c) => c.Valid() && c.suite == suites.v1
      case Channel2(c) => c.Valid() && c.suite == suites.v2
    }

    ghost function State(): (h: Host)
      requires Valid()
      reads Footprint()
      ensures h.Keyed()
    {
      match secureChannel
      case Channel1(c) => Host1(c.State())
      case Channel2(c) => Host2(c.State())
    }

    constructor (suites: Suites, channel: CardChannel, secureChannel: SecureChannel, appVersion: Option<nat>)
      requires match secureChannel
        case Channel1(c) => c.Valid() && c.suite == suites.v1
        case Channel2(c) => c.Valid() && c.suite == suites.v2
      ensures Valid() && this.suites == suites && this.channel == channel
      ensures this.secureChannel == secureChannel && this.appVersion == appVersion
    {
      this.suites := suites;
      this.channel := channel;
      this.secureChannel := secureChannel;
      this.appVersion := appVersion;
    }

    method Send(ins: byte, p1: byte, p2: byte, data: seq<byte>) returns (r: Result<ApduResponse>)
      requires Valid()
      modifies Footprint()
      ensures Valid()
      ensures (State(), channel.sent, r)
        == SendProtected(suites, old(State()), channel.respond, old(channel.sent), Request(ins, p1, p2, data))
    {
      match secureChannel {
        case Channel1(c) =>
          var cmd := c.Protect(0x80, ins, p1, p2, data);
          if cmd.Err? {
            return Err(cmd.error);
          }
          r := c.TransmitCommand(channel, cmd.value);
        case Channel2(c) =>
          var cmd := c.Protect(0x80, ins, p1, p2, data);
          if cmd.Err? {
            return Err(cmd.error);
          }
          r := c.TransmitCommand(channel, cmd.value);
      }
    }

    method StoreDataWithOffset(data: seq<byte>, dataType: byte, offset: nat) returns (r: Result<ApduResponse>)
      requires Valid() && offset < 0x1_0000
      modifies Footprint()
      ensures Valid()
      ensures (State(), channel.sent, r)
        == SendProtected(suites, old(State()), channel.respond, old(channel.sent),
                         Request(INS_STORE_DATA, dataType, offset / 4 % 256, data))
    {
      r := Send(INS_STORE_DATA, dataType, offset / 4 % 256, data);
    }

    /** The chunk loop. As there is always a first chunk, it never ends without a response. */
    method StoreChunks(data: seq<byte>) returns (r: Result<ApduResponse>)
      requires Valid() && data != []
      modifies Footprint()
      ensures Valid()
      ensures (State(), channel.sent, r)
        == WriteChunks(suites, old(State()), channel.respond, old(channel.sent), data, 0)
    {
      hide SendProtected, HasLengthPrefix;
      var toSend: nat := |data|;
      var off: nat := 0;
      var lastResp: Option<ApduResponse> := None;
      ghost var goal := WriteChunks(suites, State(), channel.respond, channel.sent, data, 0);
      while toSend > 0
        invariant Valid()
        invariant toSend == |data| - off
        invariant toSend > 0 ==> goal == WriteChunks(suites, State(), channel.respond, channel.sent, data, off)
        invariant toSend == 0 ==> lastResp.Some? && goal == (State(), channel.sent, Ok(lastResp.value))
        decreases toSend
      {
        var chunkSize := Min(NDEF_MAX_CHUNK_SIZE, toSend);
        var chunk := data[off..off + chunkSize];
        ghost var h, sent := State(), channel.sent;
        var resp := StoreDataWithOffset(chunk, STORE_DATA_P1_NDEF, off % 0x1_0000);
        assert (State(), channel.sent, resp) == SendProtected(suites, h, channel.respond, sent, ChunkRequest(data, off));
        if resp.Err? {
          return resp;
        }
        lastResp := Some(resp.value);
        if resp.value.sw != SW_OK {
          break;
        }
        off := off + chunkSize;
        toSend := toSend - chunkSize;
      }
      return Ok(lastResp.value);
    }

    method WriteNdef(ndef: seq<byte>) returns (r: Result<ApduResponse>)
      requires Valid()
      modifies Footprint()
      ensures Valid()
      ensures (State(), channel.sent, r)
        == SetNdef(suites, old(State()), channel.respond, old(channel.sent), appVersion, ndef)
    {
      hide SendProtected, WriteChunks, HasLengthPrefix;
      var appMajor := if appVersion.Some? then appVersion.value / 256 else 0;
      if appMajor > 2 {
        var data := ndef;
        if !HasLengthPrefix(data) {
          data := [|ndef| / 256 % 256, |ndef| % 256] + ndef;
        }
        assert data == Prefixed(ndef);
        r := StoreChunks(data);
      } else {
        r := Send(INS_SET_NDEF, 0, 0, ndef);
      }
    }
  }
}
