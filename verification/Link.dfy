/** What both channel versions share in the model of a card at the end of a lossy line. */
module Link {
  import opened Bytes
  import opened Apdu

  /** What the line does with one command and its reply. */
  datatype Net =
    | Deliver
    | LoseCommand
    | LoseReply
    | Substitute(delivered: bool, reply: ApduResponse)

  /** A command as the card's application sees it. */
  datatype PlainCommand = PlainCommand(cla: byte, ins: byte, p1: byte, p2: byte, data: seq<byte>)

  /** What the host asks to be sent protected; the class byte is always 0x80. */
  datatype Request = Request(ins: byte, p1: byte, p2: byte, data: seq<byte>) {
    function Plain(): PlainCommand { PlainCommand(0x80, ins, p1, p2, data) }
  }

  /** The requests of a list that fit a given payload limit, in order. */
  function Fitting(reqs: seq<Request>, limit: nat): seq<PlainCommand> {
    if reqs == [] then []
    else (if |reqs[0].data| <= limit then [reqs[0].Plain()] else []) + Fitting(reqs[1..], limit)
  }

  lemma FittingStep(before: seq<PlainCommand>, reqs: seq<Request>, limit: nat)
    requires reqs != []
    ensures before + Fitting(reqs, limit)
      == before + (if |reqs[0].data| <= limit then [reqs[0].Plain()] else []) + Fitting(reqs[1..], limit)
  {
  }

  // --- What a host knows of what its card executed --------------------------

  /** A request that was sent protected, whether the host was still open afterwards, and its
      result. */
  datatype Entry = Entry(req: Request, confirmed: bool, result: Result<ApduResponse>)

  /** A log explains what the card executed between two states of its inbox: each request of
      the log in turn, once or, if it is not confirmed, perhaps not at all, and nothing else;
      the results of the confirmed ones are the application's replies. */
  ghost predicate Explains(app: seq<PlainCommand> -> seq<byte>, before: seq<PlainCommand>, log: seq<Entry>,
                           after: seq<PlainCommand>)
    decreases |log|
  {
    if log == [] then after == before
    else
      var mid := before + [log[0].req.Plain()];
      || ((log[0].confirmed ==> log[0].result == ParseResponse(app(mid))) && Explains(app, mid, log[1..], after))
      || (!log[0].confirmed && Explains(app, before, log[1..], after))
  }

  lemma ExplainsThenMore(app: seq<PlainCommand> -> seq<byte>, before: seq<PlainCommand>, first: seq<Entry>,
                         mid: seq<PlainCommand>, rest: seq<Entry>, after: seq<PlainCommand>)
    requires |first| <= 1 && Explains(app, before, first, mid) && Explains(app, mid, rest, after)
    ensures Explains(app, before, first + rest, after)
  {
    if first == [] {
      assert first + rest == rest;
    } else {
      assert first[1..] == [] && (first + rest)[1..] == rest && (first + rest)[0] == first[0];
      var done := before + [first[0].req.Plain()];
      assert Explains(app, done, first[1..], mid) <==> mid == done;
      assert Explains(app, before, first[1..], mid) <==> mid == before;
    }
  }

  /** One request explains that it was executed, or, if it is not confirmed, that it was not. */
  lemma OneEntry(app: seq<PlainCommand> -> seq<byte>, before: seq<PlainCommand>, e: Entry, after: seq<PlainCommand>)
    ensures Explains(app, before, [e], after) <==>
      || (after == before + [e.req.Plain()] && (e.confirmed ==> e.result == ParseResponse(app(after))))
      || (after == before && !e.confirmed)
  {
    assert [e][1..] == [];
  }
}
