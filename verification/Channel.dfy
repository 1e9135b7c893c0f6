/** The transport to the card, as the host sees it. */
module Channel {
  import opened Bytes
  import opened Apdu

  /** A reader with anything behind it. The outcome of a send is an arbitrary function of all
      commands sent so far, so every card, every loss and every adaptive forgery is covered. */
  class CardChannel {
    const respond: seq<ApduCommand> -> Result<ApduResponse>
    var sent: seq<ApduCommand>

    constructor (respond: seq<ApduCommand> -> Result<ApduResponse>)
      ensures this.respond == respond && sent == []
    {
      this.respond := respond;
      sent := [];
    }

    method Send(cmd: ApduCommand) returns (r: Result<ApduResponse>)
      modifies this
      ensures sent == old(sent) + [cmd]
      ensures r == respond(sent)
    {
      sent := sent + [cmd];
      r := respond(sent);
    }
  }
}
