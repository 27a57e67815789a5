/**
 The relay listener's surroundings: clocks, stop requests, tokens, the dialler,
 the message channels and the request handler, as lists of what each will
 answer, together with a trace of everything done and observed.
 */
module RelayWorld {
  import opened Common
  import Messages
  import Json

  type Message = Messages.Message

  /** One moment: the monotonic clock in milliseconds and the wall clock in seconds. */
  datatype Instant = Instant(mono: nat, wall: nat)

  type int32 = x: int | -0x8000_0000 <= x < 0x8000_0000

  datatype Request = Request(id: Bytes, method_: Bytes, target: Bytes, headers: Option<Json.Value>, body: Bytes)

  datatype Response = Response(code: int32, desc: Bytes, body: Bytes, contentType: Bytes)

  /** What the handler did: `None` when it declined. */
  type Answer = Option<Response>

  datatype Event =
    | Connecting | ConnectFailed | Connected | Disconnected | Stopped
    | TokenRenewed | Rendezvous | RendezvousFailed | RequestError
    | ResponseSent(code: int32) | ResponseError | AcceptIgnored | Control | Unparsable

  datatype Cause = Renewal | Reply

  datatype Purpose = ForControl | ForRendezvous(address: Bytes)

  /** Where a request came from, and what it asked for on the way back. */
  datatype Call = Call(link: nat, onControl: bool, address: Option<Bytes>, request: Request, response: Response)

  datatype Action =
    | Emit(event: Event)
    | Asked(stop: bool)
    | Backoff(budget: nat)
    | Slept
    | Minted(at: Instant, token: Bytes)
    | AddressRefused
    | Dialled(purpose: Purpose, shown: Option<Bytes>, reached: Option<nat>)
    | DeadlineSet(at: Instant)
    | Checked(mono: Instant, wall: Instant, watched: nat)
    | NotRenewed
    | Pinged(link: nat)
    | Received(link: nat, result: Result<Message>)
    | Handled(call: Call)
    | Sent(link: nat, cause: Cause, message: Message, ok: bool)
    | SaidGoodbye(link: nat)

  type Trace = seq<Action>

  /** The channel a dial reached. */
  function ChannelOf(r: Result<nat>): Option<nat> {
    match r case Ok(link) => Some(link) case Err(_) => None
  }

  /** A channel: the results its `recv` calls will give, and which sends it will refuse. */
  datatype Link = Link(inbox: seq<Result<Message>>, refusals: seq<bool>)

  /** An address as the URL parser sees it: unusable, or usable with or without a token in it. */
  datatype Route = Unusable(error: ErrorCode) | Usable(carriesToken: bool)

  datatype World = World(
    now: Instant, times: seq<Instant>, stops: seq<bool>, tokens: seq<Bytes>, routes: seq<Route>,
    dials: seq<Result<Link>>, answers: seq<Answer>, links: seq<Link>, trace: Trace)
  {
    function Log(a: Action): World {
      this.(trace := trace + [a])
    }

    /** Reads a clock: time moves on to the next instant. */
    function Tick(): World {
      if times == [] then this else this.(now := times[0], times := times[1..])
    }

    /** Asks whether to stop; a run is finite, so past the last answer it is yes. */
    function Ask(): (World, bool) {
      var stop := stops == [] || stops[0];
      (this.(stops := if stops == [] then [] else stops[1..]).Log(Asked(stop)), stop)
    }

    /** The next token; an empty one is a failure to sign. */
    function NextToken(): (World, Bytes) {
      if tokens == [] then (this, Ascii("sas")) else (this.(tokens := tokens[1..]), tokens[0])
    }

    function NextRoute(): (World, Route) {
      if routes == [] then (this, Usable(false)) else (this.(routes := routes[1..]), routes[0])
    }

    function NextAnswer(): (World, Answer) {
      if answers == [] then (this, None) else (this.(answers := answers[1..]), answers[0])
    }

    /** Dials with a token, or with none to add; a new connection gets the next channel number. */
    function Dial(purpose: Purpose, token: Option<Bytes>): (r: (World, Result<nat>))
      ensures r.1.Ok? ==> r.1.value == |links| && |r.0.links| == |links| + 1
      ensures r.1.Err? ==> r.0.links == links
    {
      if dials == [] then (Log(Dialled(purpose, token, None)), Err(Io))
      else
        var w := this.(dials := dials[1..]);
        match dials[0]
        case Err(e) => (w.Log(Dialled(purpose, token, None)), Err(e))
        case Ok(link) => (w.(links := links + [link]).Log(Dialled(purpose, token, Some(|links|))), Ok(|links|))
    }

    function Send(id: nat, cause: Cause, m: Message): (r: (World, bool))
      requires id < |links|
      ensures |r.0.links| == |links|
    {
      var refuse := links[id].refusals;
      var ok := refuse == [] || !refuse[0];
      var link := links[id].(refusals := if refuse == [] then [] else refuse[1..]);
      (this.(links := links[id := link]).Log(Sent(id, cause, m, ok)), ok)
    }

    /** A ping, which the channel may refuse like any other send. */
    function Ping(id: nat): (w: World)
      requires id < |links|
      ensures |w.links| == |links|
    {
      var refuse := links[id].refusals;
      var link := links[id].(refusals := if refuse == [] then [] else refuse[1..]);
      this.(links := links[id := link]).Log(Pinged(id))
    }

    /** One `recv` call; past its last result a channel is closed. */
    function Recv(id: nat): (r: (World, Result<Message>))
      requires id < |links|
      ensures |r.0.links| == |links|
    {
      var inbox := links[id].inbox;
      var r := if inbox == [] then Err(Closed) else inbox[0];
      var link := links[id].(inbox := if inbox == [] then [] else inbox[1..]);
      (this.(links := links[id := link]).Log(Received(id, r)), r)
    }
  }
}
