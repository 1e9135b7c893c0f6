/** Command and response APDUs: the bytes that cross the reader. */
module Apdu {
  import opened Bytes

  const SW_OK := 0x9000
  const SW_SECURITY_CONDITION_NOT_SATISFIED := 0x6982

  datatype ApduCommand = ApduCommand(
    cla: byte, ins: byte, p1: byte, p2: byte, data: seq<byte>, needsLe: bool)

  datatype ApduResponse = ApduResponse(data: seq<byte>, sw: int)

  /** A command built without an expected-length byte. */
  function Command(cla: byte, ins: byte, p1: byte, p2: byte, data: seq<byte>): ApduCommand {
    ApduCommand(cla, ins, p1, p2, data, false)
  }

  // --- Serialisation --------------------------------------------------------

  /** The bytes of a command. The length byte keeps only the low eight bits of the length. */
  function Frame(cmd: ApduCommand): seq<byte> {
    var le: seq<byte> := if cmd.needsLe then [0] else [];
    [cmd.cla, cmd.ins, cmd.p1, cmd.p2]
    + (if cmd.data == [] then [] else [|cmd.data| % 256] + cmd.data)
    + le
  }

  method Serialize(cmd: ApduCommand) returns (buf: seq<byte>)
    ensures buf == Frame(cmd)
  {
    buf := [];
    buf := buf + [cmd.cla];
    buf := buf + [cmd.ins];
    buf := buf + [cmd.p1];
    buf := buf + [cmd.p2];
    if cmd.data != [] {
      buf := buf + [|cmd.data| % 256];
      buf := buf + cmd.data;
      if cmd.needsLe {
        buf := buf + [0];
      }
    } else if cmd.needsLe {
      buf := buf + [0];
    }
  }

  /** What the receiver of a short APDU (ISO 7816-4) makes of a byte string. */
  function ParseFrame(f: seq<byte>): Option<ApduCommand> {
    if |f| < 4 then None
    else if |f| == 4 then Some(ApduCommand(f[0], f[1], f[2], f[3], [], false))
    else if |f| == 5 then Some(ApduCommand(f[0], f[1], f[2], f[3], [], true))
    else
      var lc: int := f[4];
      if lc == 0 then None
      else if |f| == 5 + lc then Some(ApduCommand(f[0], f[1], f[2], f[3], f[5..], false))
      else if |f| == 6 + lc then Some(ApduCommand(f[0], f[1], f[2], f[3], f[5..|f| - 1], true))
      else None
  }

  /** A frame is read back as the command it was built from exactly when the payload fits
      the one-byte length; a longer payload yields a frame no receiver accepts.
      An expected length is any length. */
  lemma FrameRoundTrip(cmd: ApduCommand)
    ensures |cmd.data| <= 255 ==> ParseFrame(Frame(cmd)) == Some(cmd)
    ensures |cmd.data| > 255 ==> ParseFrame(Frame(cmd)) == None
    ensures |Frame(cmd)| >= 4 && (cmd.needsLe ==> Frame(cmd)[|Frame(cmd)| - 1] == 0x00)
  {
    var f := Frame(cmd);
    if cmd.data != [] {
      assert f[4] == |cmd.data| % 256;
      assert f[5..5 + |cmd.data|] == cmd.data;
      if !cmd.needsLe {
        assert f[5..] == cmd.data;
      }
    }
  }

  // --- Responses ------------------------------------------------------------

  function Word(hi: int, lo: int): int {
    hi * 256 + lo
  }

  /** Splits raw bytes into data and status word; fewer than two bytes are refused. */
  function ParseResponse(raw: seq<byte>): Result<ApduResponse> {
    if |raw| < 2 then Err(Tlv)
    else Ok(ApduResponse(raw[..|raw| - 2], Word(raw[|raw| - 2], raw[|raw| - 1])))
  }

  function RawResponse(r: ApduResponse): seq<byte>
    requires 0 <= r.sw < 0x10000
  {
    r.data + [r.sw / 256, r.sw % 256]
  }

  /** Splitting a response loses nothing, and every status word and data can be received. */
  lemma ResponseRoundTrip(raw: seq<byte>, r: ApduResponse)
    requires 0 <= r.sw < 0x10000
    ensures ParseResponse(RawResponse(r)) == Ok(r)
    ensures ParseResponse(raw).Err? <==> |raw| < 2
    ensures |raw| >= 2 ==>
      var p := ParseResponse(raw).value;
      0 <= p.sw < 0x10000 && RawResponse(p) == raw
  {
    assert RawResponse(r)[..|r.data|] == r.data;
    if |raw| >= 2 {
      assert raw == raw[..|raw| - 2] + [raw[|raw| - 2], raw[|raw| - 1]];
    }
  }

  /** Accepts a response whose status word is 0x9000. */
  function CheckOk(r: ApduResponse): Result<ApduResponse> {
    if r.sw == SW_OK then Ok(r) else Err(Error.Apdu(r.sw))
  }
}
