/** Automata over traces that say what a run of the listener may look like. */
module RelayMonitors {
  import opened Common
  import opened RelayWorld
  import opened RelaySpec
  import Messages
  import Json
  import JsonText

  // ------------------------------------------------------ sessions and retries

  /** Where a run stands; `k` counts the consecutive failures to connect. */
  datatype Phase =
    | Outside(k: nat) | Ready(k: nat) | Trying(k: nat) | Failed(k: nat)
    | Waiting(k: nat, left: nat) | Dozing(k: nat, left: nat)
    | InSession | Parting | GoodbyeDue | Leaving | Finished | Wrong

  /** The backoff, in milliseconds, after the `k`-th consecutive failure (from 0). */
  function Budget(k: nat): (r: nat)
    ensures r >= 1000
  {
    if 1000 * Pow2(k) <= 64000 then 1000 * Pow2(k) else 64000
  }

  predicate SessionAction(a: Action) {
    match a
    case Emit(e) => !(e.Connecting? || e.ConnectFailed? || e.Connected? || e.Disconnected? || e.Stopped?)
    case Dialled(purpose, _, _) => purpose.ForRendezvous?
    case Minted(_, _) | AddressRefused | DeadlineSet(_) | Checked(_, _, _) | NotRenewed => true
    case Pinged(_) | Received(_, _) | Handled(_) | Sent(_, _, _, _) | SaidGoodbye(_) => true
    case Asked(_) | Backoff(_) | Slept => false
  }

  function PhaseStep(p: Phase, a: Action): Phase {
    match p
    case Outside(k) => if a == Asked(true) then Leaving else if a == Asked(false) then Ready(k) else Wrong
    case Ready(k) => if a == Emit(Connecting) then Trying(k) else Wrong
    case Trying(k) =>
      if a.Minted? || a.DeadlineSet? || (a.Dialled? && a.purpose == ForControl) then p
      else if a == Emit(ConnectFailed) then Failed(k)
      else if a == Emit(Connected) then InSession
      else Wrong
    case Failed(k) => if a == Backoff(Budget(k)) then Waiting(k, Budget(k)) else Wrong
    case Waiting(k, left) =>
      if a == Asked(true) then Outside(k + 1) else if a == Asked(false) then Dozing(k, left) else Wrong
    case Dozing(k, left) =>
      if a.Slept? then if left <= 100 then Outside(k + 1) else Waiting(k, left - 100) else Wrong
    case InSession =>
      if SessionAction(a) || a == Asked(false) then InSession
      else if a == Asked(true) || a == Emit(Disconnected) then Parting
      else Wrong
    case Parting => if a == Asked(true) then GoodbyeDue else if a == Asked(false) then Outside(0) else Wrong
    case GoodbyeDue => if a.SaidGoodbye? then Outside(0) else Wrong
    case Leaving => if a == Emit(Stopped) then Finished else Wrong
    case Finished => Wrong
    case Wrong => Wrong
  }

  function PhaseOf(t: Trace): Phase {
    if t == [] then Outside(0) else PhaseStep(PhaseOf(t[..|t| - 1]), t[|t| - 1])
  }

  // ------------------------------------------------------------ token freshness

  /** Token lifetime (s), mint-to-deadline delay and loop gap (ms), and the wall clock's epoch (ms). */
  datatype Bounds = Bounds(ttl: nat, delay: nat, gap: nat, epoch: nat)

  /** Both clocks read one time line at this instant. */
  predicate Aligned(b: Bounds, i: Instant) {
    i.wall == (i.mono + b.epoch) / 1000
  }

  /**
   What the wall-clock trigger did at the loop heads so far. At every one of them
   the expiry it watched was: that of the latest token minted; that of the token
   held. At every one of them the two tokens were: of one second; the same. And
   whether the trigger ever stayed silent though the token held was due by it.
   */
  datatype Trigger = Trigger(latest: bool, tracked: bool, level: bool, clean: bool, missed: bool)

  /**
   The latest token, when it was minted and when the one the service holds was,
   and how many were minted since; whether every dial and every renewal has shown
   the latest token; the latest loop head; whether the delay and the
   gaps have been within bounds and no renewal has failed; whether the held
   token was unexpired at every loop head; and the wall-clock trigger.
   */
  datatype Audit = Audit(
    token: Bytes, pending: Instant, held: Option<Instant>, strays: nat, honest: bool,
    mark: nat, bounded: bool, alive: bool, trigger: Trigger)

  predicate DueByWall(b: Bounds, wall: nat, expiry: nat) {
    wall + b.ttl / 4 >= expiry
  }

  function TriggerStep(b: Bounds, x: Audit, wall: nat, watched: nat): Trigger {
    var y := x.trigger;
    match x.held
    case None => Trigger(false, false, false, false, y.missed)
    case Some(held) => Trigger(
      y.latest && watched == x.pending.wall + b.ttl,
      y.tracked && watched == held.wall + b.ttl,
      y.level && x.pending.wall == held.wall,
      y.clean && x.strays == 0,
      y.missed || (DueByWall(b, wall, held.wall + b.ttl) && !DueByWall(b, wall, watched)))
  }

  /** The token a renewal message tells the service, if the service can read it. */
  function TokenTold(m: Message): Option<Bytes> {
    if m.kind != Messages.Text then None else
    match JsonText.ParseDocument(m.payload)
    case Err(_) => None
    case Ok(root) =>
      match FindCi(root, Ascii("renewToken"))
      case None => None
      case Some(inner) => GetStr(inner, Ascii("token"))
  }

  function AuditStep(b: Bounds, x: Audit, a: Action): Audit {
    match a
    case Minted(at, token) => x.(token := token, pending := at, strays := x.strays + 1)
    case Dialled(purpose, shown, reached) =>
      if shown != Some(x.token) && (shown.Some? || purpose == ForControl) then x.(honest := false)
      else if purpose == ForControl && reached.Some? then Delivered(x)
      else x
    case Sent(_, cause, m, ok) =>
      if cause != Renewal then x
      else if TokenTold(m) != Some(x.token) then x.(honest := false)
      else if ok then Delivered(x)
      else x.(bounded := false)
    case NotRenewed => x.(bounded := false)
    case DeadlineSet(at) => x.(mark := at.mono, bounded := x.bounded && at.mono <= x.pending.mono + b.delay)
    case Checked(m, w, watched) =>
      x.(mark := m.mono, bounded := x.bounded && w.mono <= x.mark + b.gap,
         alive := x.alive && x.held.Some? && w.wall < x.held.value.wall + b.ttl,
         trigger := TriggerStep(b, x, w.wall, watched))
    case _ => x
  }

  /** The service has the latest token. */
  function Delivered(x: Audit): Audit {
    x.(held := Some(x.pending), strays := 0)
  }

  function AuditOf(b: Bounds, t: Trace): Audit {
    if t == [] then Audit([], Instant(0, b.epoch / 1000), None, 0, true, 0, true, true, Trigger(true, true, true, true, false))
    else AuditStep(b, AuditOf(b, t[..|t| - 1]), t[|t| - 1])
  }

  // ----------------------------------------------------------------- responses

  /** The control channel dialled last, and a bound for the channels dialled so far. */
  datatype Source = Source(control: Option<nat>, dialled: nat)

  function SourceStep(x: Source, a: Action): Source {
    if a.Dialled? && a.reached.Some?
    then Source(if a.purpose == ForControl then a.reached else x.control, a.reached.value + 1)
    else x
  }

  function SourceOf(t: Trace): Source {
    if t == [] then Source(None, 0) else SourceStep(SourceOf(t[..|t| - 1]), t[|t| - 1])
  }

  /** Every channel dialled is a new one; only the control channel and those dialled since are read. */
  predicate Allowed(x: Source, a: Action) {
    match a
    case Dialled(_, _, Some(link)) => link >= x.dialled
    case Received(link, _) => link < x.dialled && (x.control.Some? ==> link >= x.control.value)
    case _ => true
  }

  datatype Stage = Untried | Refused | Reached(link: nat)

  /**
   What is still owed: that an offer received is taken up, by dialling its
   address; that a request received is handled, once its body is there, or
   refused; and then its text, its body, a goodbye and a report.
   */
  datatype Owed =
    | Nothing | Invited(address: Bytes) | Calling(address: Bytes) | Uncalled
    | Due(link: nat, onControl: bool, node: Json.Value, body: Option<Bytes>) | Refusal
    | Text(call: Call, stage: Stage) | Body(call: Call, link: nat)
    | Report(call: Call, goodbye: Option<nat>, ok: bool) | Broken

  /** What a message received calls for. On control, a request without its method is an offer. */
  function Summons(onControl: bool, link: nat, r: Result<Message>): Owed {
    if r.Err? || r.value.kind != Messages.Text then Nothing else
    match RequestIn(r.value.payload)
    case None => Nothing
    case Some(node) =>
      var pr := ParseRequest(node);
      if onControl && pr.method_.None? then if pr.address.None? then Refusal else Invited(pr.address.value)
      else Due(link, onControl, node, if ParseRequest(node).hasBody then None else Some([]))
  }

  /** A request as it is recorded when it is handled. */
  function CallFor(link: nat, onControl: bool, node: Json.Value, body: Bytes, resp: Response): Call {
    Call(link, onControl, ParseRequest(node).address, RequestOf(node, body), resp)
  }

  predicate Big(c: Call) {
    c.onControl && |c.response.body| > 61440 && c.address.Some?
  }

  /** The channel a response must take: a rendezvous of its own, if one is needed and could be made. */
  predicate RightLink(c: Call, stage: Stage, link: nat) {
    if Big(c) then (stage.Reached? && link == stage.link) || (stage.Refused? && link == c.link)
    else stage.Untried? && link == c.link
  }

  /** What is owed once the sends for a request are over; a rendezvous of its own is closed first. */
  function ReportDue(c: Call, link: nat, ok: bool): Owed {
    Report(c, if link == c.link then None else Some(link), ok)
  }

  function OwedStep(o: Owed, a: Action): Owed {
    match o
    case Nothing =>
      if a.Handled? then Broken
      else if a.Sent? && a.cause == Reply then Broken
      else if a.Emit? && (a.event.ResponseSent? || a.event.ResponseError?) then Broken
      else Nothing
    case Invited(address) => if a == Emit(Rendezvous) then Calling(address) else Broken
    case Calling(address) =>
      if a.Minted? then o
      else if a.AddressRefused? then Uncalled
      else if a.Dialled? && a.purpose == ForRendezvous(address) then if a.reached.Some? then Nothing else Uncalled
      else Broken
    case Uncalled => if a == Emit(RendezvousFailed) then Nothing else Broken
    case Due(link, onControl, node, None) =>
      if !a.Received? || a.link != link then Broken
      else if a.result.Ok? && a.result.value.kind == Messages.Binary
      then Due(link, onControl, node, Some(a.result.value.payload))
      else Refusal
    case Due(link, onControl, node, Some(body)) =>
      if a.Handled? && a.call == CallFor(link, onControl, node, body, a.call.response)
      then Text(a.call, Untried) else Broken
    case Refusal => if a == Emit(RequestError) then Nothing else Broken
    case Text(c, stage) =>
      if a.Minted? then o
      else if a.AddressRefused? then if Big(c) && stage.Untried? then Text(c, Refused) else Broken
      else if a.Dialled? then
        if Big(c) && stage.Untried? && a.purpose == ForRendezvous(c.address.value)
        then Text(c, if a.reached.Some? then Reached(a.reached.value) else Refused) else Broken
      else if a.Sent? then
        if a.cause == Reply && RightLink(c, stage, a.link) && a.message == ResponseText(c.request.id, c.response)
        then if a.ok && c.response.body != [] then Body(c, a.link) else ReportDue(c, a.link, a.ok)
        else Broken
      else Broken
    case Body(c, link) =>
      if a.Sent? && a == Sent(link, Reply, Messages.Message(Messages.Binary, c.response.body), a.ok)
      then ReportDue(c, link, a.ok) else Broken
    case Report(c, goodbye, ok) =>
      if goodbye.Some? then if a == SaidGoodbye(goodbye.value) then Report(c, None, ok) else Broken
      else if a == Emit(if ok then ResponseSent(c.response.code) else ResponseError) then Nothing else Broken
    case Broken => Broken
  }

  function OwedNext(o: Owed, x: Source, a: Action): Owed {
    if !Allowed(x, a) then Broken
    else if o.Nothing? && a.Received? then Summons(x.control == Some(a.link), a.link, a.result)
    else OwedStep(o, a)
  }

  function OwedOf(t: Trace): Owed {
    if t == [] then Nothing
    else OwedNext(OwedOf(t[..|t| - 1]), SourceOf(t[..|t| - 1]), t[|t| - 1])
  }

  /** The requests handled on a channel, in order. */
  function Calls(t: Trace, link: nat): seq<Request> {
    if t == [] then []
    else
      var a := t[|t| - 1];
      Calls(t[..|t| - 1], link) + if a.Handled? && a.call.link == link then [a.call.request] else []
  }

  lemma PhaseLogged(t: Trace, a: Action)
    ensures PhaseOf(t + [a]) == PhaseStep(PhaseOf(t), a)
  {
    assert (t + [a])[..|t|] == t;
  }

  lemma AuditLogged(b: Bounds, t: Trace, a: Action)
    ensures AuditOf(b, t + [a]) == AuditStep(b, AuditOf(b, t), a)
  {
    assert (t + [a])[..|t|] == t;
  }

  lemma OwedLogged(t: Trace, a: Action)
    ensures SourceOf(t + [a]) == SourceStep(SourceOf(t), a)
    ensures OwedOf(t + [a]) == OwedNext(OwedOf(t), SourceOf(t), a)
  {
    assert (t + [a])[..|t|] == t;
  }
}
