/** What each operation of the relay listener does, from one state to the next. */
module RelaySpec {
  import opened Common
  import opened RelayWorld
  import Messages
  import Json
  import JsonText

  /** Bodies above this size do not fit the control channel. */
  const CTRL_BODY_MAX: nat := 61440
  const PING_INTERVAL: nat := 30000

  datatype Config = Config(ttl: nat, hasHandler: bool)

  /** The fields of the listener, and the world around it. */
  datatype State = State(w: World, ctrl: Option<nat>, renewAt: nat, expiryWall: nat, nextPing: nat)
  {
    function Log(a: Action): State {
      this.(w := w.Log(a))
    }

    function Tick(): State {
      this.(w := w.Tick())
    }
  }

  /** What every operation inside a session leaves alone. */
  ghost predicate Within(s: State, t: State) {
    t.w.stops == s.w.stops && |t.w.links| >= |s.w.links| && t.ctrl == s.ctrl && t.nextPing == s.nextPing
  }

  // ----------------------------------------------------------------- tokens

  /** Is renewal due, by the monotonic deadline or by the wall clock? */
  predicate RenewalDue(nowMono: nat, monoDue: nat, nowWall: nat, expiryWall: nat, ttl: nat) {
    nowMono >= monoDue || (expiryWall != 0 && nowWall + ttl / 4 >= expiryWall)
  }

  /** The deadline for a token of `ttl` seconds, counted from `mono`. */
  function Deadline(mono: nat, ttl: nat): nat {
    mono + ttl * 1000 * 3 / 4
  }

  function MakeToken(cfg: Config, s: State): (r: (State, Bytes))
    ensures Within(s, r.0) && r.0.renewAt == s.renewAt && r.0.w.links == s.w.links
  {
    var s1 := s.Tick();
    var (w, token) := s1.w.NextToken();
    (s1.(w := w, expiryWall := s1.w.now.wall + cfg.ttl).Log(Minted(s1.w.now, token)), token)
  }

  function SetDeadline(cfg: Config, s: State): (t: State)
    ensures Within(s, t)
  {
    var s1 := s.Tick();
    s1.(renewAt := Deadline(s1.w.now.mono, cfg.ttl)).Log(DeadlineSet(s1.w.now))
  }

  function CtrlConnect(cfg: Config, s: State): (r: (State, Result<()>))
    ensures r.0.w.stops == s.w.stops
    ensures r.1.Ok? ==> r.0.ctrl == Some(|s.w.links|) && |r.0.w.links| == |s.w.links| + 1
  {
    var (s1, token) := MakeToken(cfg, s);
    if token == [] then (s1, Err(Fail)) else
    var (w, r) := s1.w.Dial(ForControl, Some(token));
    var s2 := s1.(w := w);
    match r
    case Err(e) => (s2, Err(e))
    case Ok(id) =>
      var s3 := SetDeadline(cfg, s2.(ctrl := Some(id)));
      (s3.(nextPing := s3.w.now.mono + PING_INTERVAL), Ok(()))
  }

  function RenewValue(token: Bytes): (v: Json.Value)
    ensures Json.Safe(v) && Json.Height(v) == 3
  {
    var inner := Json.Member(Ascii("token"), Json.String(token));
    Json.OneMember(inner);
    var outer := Json.Member(Ascii("renewToken"), Json.Object([inner]));
    Json.OneMember(outer);
    Json.Object([outer])
  }

  function RenewMessage(token: Bytes): Message {
    Messages.Message(Messages.Text, Json.Dump(RenewValue(token)))
  }

  function RenewIfDue(cfg: Config, s: State, ctrl: nat): (t: State)
    requires ctrl < |s.w.links|
    ensures Within(s, t)
  {
    var s1 := s.Tick();
    var s2 := s1.Tick();
    var s3 := s2.Log(Checked(s1.w.now, s2.w.now, s.expiryWall));
    if !RenewalDue(s1.w.now.mono, s.renewAt, s2.w.now.wall, s.expiryWall, cfg.ttl) then s3 else
    Renew(cfg, s3, ctrl)
  }

  function Renew(cfg: Config, s: State, ctrl: nat): (t: State)
    requires ctrl < |s.w.links|
    ensures Within(s, t)
  {
    var (s1, token) := MakeToken(cfg, s);
    if token == [] then s1.Log(NotRenewed) else
    var (w, ok) := s1.w.Send(ctrl, Renewal, RenewMessage(token));
    var s2 := s1.(w := w);
    if ok then SetDeadline(cfg, s2).Log(Emit(TokenRenewed)) else s2
  }

  // --------------------------------------------------------------- requests

  /** The first member whose name is `key`, in any case. */
  function FindCi(v: Json.Value, key: Bytes): Option<Json.Value> {
    match v
    case Object(members) => FindMember(members, key)
    case _ => None
  }

  function FindMember(members: seq<Json.Member>, key: Bytes): Option<Json.Value> {
    if members == [] then None
    else if EqualsCi(members[0].key, key) then Some(members[0].value)
    else FindMember(members[1..], key)
  }

  function GetStr(v: Json.Value, key: Bytes): Option<Bytes> {
    match FindCi(v, key)
    case Some(String(s)) => Some(s)
    case _ => None
  }

  function OrElse(o: Option<Bytes>, def: Bytes): Bytes {
    match o case Some(s) => s case None => def
  }

  /** The fields of a request the listener uses. */
  datatype ParsedRequest = ParsedRequest(
    id: Bytes, method_: Option<Bytes>, target: Bytes, address: Option<Bytes>, hasBody: bool)

  function ParseRequest(node: Json.Value): ParsedRequest {
    ParsedRequest(
      OrElse(GetStr(node, Ascii("id")), []),
      GetStr(node, Ascii("method")),
      OrElse(GetStr(node, Ascii("requestTarget")), Ascii("/")),
      GetStr(node, Ascii("address")),
      FindCi(node, Ascii("body")) == Some(Json.Bool(true)))
  }

  /** The request the handler sees. */
  function RequestOf(node: Json.Value, body: Bytes): Request {
    var pr := ParseRequest(node);
    Request(pr.id, OrElse(pr.method_, []), pr.target, FindCi(node, Ascii("requestHeaders")), body)
  }

  function TextMember(key: string, value: Bytes): seq<Json.Member> {
    [Json.Member(Ascii(key), Json.String(value))]
  }

  function ResponseMembers(id: Bytes, r: Response): seq<Json.Member> {
    TextMember("requestId", id) +
    [Json.Member(Ascii("statusCode"), Json.Number(r.code as real))] +
    (if r.desc == [] then [] else TextMember("statusDescription", r.desc)) +
    [Json.Member(Ascii("responseHeaders"), Json.Object(
       TextMember("Content-Type", if r.contentType == [] then Ascii("application/json") else r.contentType)))] +
    [Json.Member(Ascii("body"), Json.Bool(r.body != []))]
  }

  /** The message that answers request `id`. */
  function ResponseValue(id: Bytes, r: Response): Json.Value {
    Json.Object([Json.Member(Ascii("response"), Json.Object(ResponseMembers(id, r)))])
  }

  lemma TextSafe(key: string, value: Bytes)
    ensures Json.SafeMembers(TextMember(key, value)) && Json.MembersHeight(TextMember(key, value)) == 1
  {
    Json.OneMember(TextMember(key, value)[0]);
  }

  lemma ResponseMembersSafe(id: Bytes, r: Response)
    ensures Json.SafeMembers(ResponseMembers(id, r)) && Json.MembersHeight(ResponseMembers(id, r)) <= 2
  {
    hide Json.SafeMembers, Json.MembersHeight, Ascii;
    var contentType := if r.contentType == [] then Ascii("application/json") else r.contentType;
    TextSafe("requestId", id);
    TextSafe("statusDescription", r.desc);
    TextSafe("Content-Type", contentType);
    var code := Json.Member(Ascii("statusCode"), Json.Number(r.code as real));
    var headers := Json.Member(Ascii("responseHeaders"), Json.Object(TextMember("Content-Type", contentType)));
    var flag := Json.Member(Ascii("body"), Json.Bool(r.body != []));
    Json.OneMember(code);
    Json.OneMember(headers);
    Json.OneMember(flag);
    var desc := if r.desc == [] then [] else TextMember("statusDescription", r.desc);
    NoMembers();
    Json.MembersConcat(TextMember("requestId", id), [code]);
    Json.MembersConcat(TextMember("requestId", id) + [code], desc);
    Json.MembersConcat(TextMember("requestId", id) + [code] + desc, [headers]);
    Json.MembersConcat(TextMember("requestId", id) + [code] + desc + [headers], [flag]);
  }

  lemma NoMembers()
    ensures Json.SafeMembers([]) && Json.MembersHeight([]) == 0
  {
  }

  lemma ResponseValueSafe(id: Bytes, r: Response)
    ensures Json.Safe(ResponseValue(id, r))
    ensures Json.Height(ResponseValue(id, r)) <= 4
  {
    ResponseMembersSafe(id, r);
    Json.OneMember(Json.Member(Ascii("response"), Json.Object(ResponseMembers(id, r))));
  }

  function ResponseText(id: Bytes, r: Response): Message {
    ResponseValueSafe(id, r);
    Messages.Message(Messages.Text, Json.Dump(ResponseValue(id, r)))
  }

  /** Sends the response text, and at once its body if there is one. */
  function SendResponse(s: State, link: nat, id: Bytes, r: Response): (t: (State, bool))
    requires link < |s.w.links|
    ensures Within(s, t.0) && t.0.renewAt == s.renewAt
  {
    var (w, ok) := s.w.Send(link, Reply, ResponseText(id, r));
    var s1 := s.(w := w);
    if !ok || r.body == [] then (s1, ok) else
    var (w2, ok2) := w.Send(link, Reply, Messages.Message(Messages.Binary, r.body));
    (s1.(w := w2), ok2)
  }

  /** Dials an address, adding a fresh token unless it carries one or none could be signed. */
  function RendezvousConnect(cfg: Config, s: State, address: Bytes): (r: (State, Result<nat>))
    ensures Within(s, r.0) && r.0.renewAt == s.renewAt
    ensures r.1.Ok? ==> |s.w.links| == r.1.value < |r.0.w.links|
  {
    var (w, route) := s.w.NextRoute();
    var s1 := s.(w := w);
    match route
    case Unusable(e) => (s1.Log(AddressRefused), Err(e))
    case Usable(carriesToken) =>
      var (s2, token) := if carriesToken then (s1, []) else MakeToken(cfg, s1);
      var (w2, r) := s2.w.Dial(ForRendezvous(address), if token == [] then None else Some(token));
      (s2.(w := w2), r)
  }

  /** A response needs a rendezvous of its own when it is too big for the control channel. */
  predicate NeedsRendezvous(onControl: bool, size: nat, hasAddress: bool) {
    onControl && size > CTRL_BODY_MAX && hasAddress
  }

  function Deliver(cfg: Config, s: State, link: nat, pr: ParsedRequest, r: Response, onControl: bool): (t: (State, bool))
    requires link < |s.w.links|
    ensures Within(s, t.0) && t.0.renewAt == s.renewAt
  {
    if !NeedsRendezvous(onControl, |r.body|, pr.address.Some?) then SendResponse(s, link, pr.id, r) else
    var (s1, rws) := RendezvousConnect(cfg, s, pr.address.value);
    match rws
    case Err(_) => SendResponse(s1, link, pr.id, r)
    case Ok(other) =>
      var (s2, ok) := SendResponse(s1, other, pr.id, r);
      (s2.Log(SaidGoodbye(other)), ok)
  }

  function DefaultResponse(): Response {
    Response(500, Ascii("Internal Server Error"), [], [])
  }

  /** The handler's response; without a handler, or if it declines, an error. */
  function Invoke(cfg: Config, s: State): (r: (State, Response))
    ensures Within(s, r.0) && r.0.renewAt == s.renewAt && r.0.w.trace == s.w.trace && r.0.w.links == s.w.links
  {
    if !cfg.hasHandler then (s, DefaultResponse().(code := 501, desc := Ascii("Not Implemented"))) else
    var (w, answer) := s.w.NextAnswer();
    (s.(w := w), if answer.None? then DefaultResponse() else answer.value)
  }

  /** The body of a request: nothing, or the binary message that must follow. */
  function ReadBody(s: State, link: nat, expected: bool): (r: (State, Result<Bytes>))
    requires link < |s.w.links|
    ensures Within(s, r.0) && r.0.renewAt == s.renewAt
  {
    if !expected then (s, Ok([])) else
    var (w, m) := s.w.Recv(link);
    (s.(w := w), match m
                 case Err(e) => Err(e)
                 case Ok(m) => if m.kind == Messages.Binary then Ok(m.payload) else Err(Protocol))
  }

  /** A request that carries its method, on the channel it came in on. */
  function Serve(cfg: Config, s: State, link: nat, node: Json.Value, onControl: bool): (t: State)
    requires link < |s.w.links|
    ensures Within(s, t) && t.renewAt == s.renewAt
  {
    var pr := ParseRequest(node);
    var (s1, body) := ReadBody(s, link, pr.hasBody);
    if body.Err? then s1.Log(Emit(RequestError)) else
    var (s2, resp) := Invoke(cfg, s1);
    var s3 := s2.Log(Handled(Call(link, onControl, pr.address, RequestOf(node, body.value), resp)));
    var (s4, ok) := Deliver(cfg, s3, link, pr, resp, onControl);
    s4.Log(Emit(if ok then ResponseSent(resp.code) else ResponseError))
  }

  /** An offer without a method: the request itself comes over a rendezvous. */
  function Offer(cfg: Config, s: State, address: Bytes): (t: State)
    ensures Within(s, t) && t.renewAt == s.renewAt
  {
    var (s1, rws) := RendezvousConnect(cfg, s.Log(Emit(Rendezvous)), address);
    match rws
    case Err(_) => s1.Log(Emit(RendezvousFailed))
    case Ok(link) =>
      var (w, m) := s1.w.Recv(link);
      var s2 := s1.(w := w);
      var inner := if m.Ok? && m.value.kind == Messages.Text then RequestIn(m.value.payload) else None;
      (if inner.None? then s2 else Serve(cfg, s2, link, inner.value, false)).Log(SaidGoodbye(link))
  }

  /** The request node of a control text, if it parses and has one. */
  function RequestIn(text: Bytes): Option<Json.Value> {
    match JsonText.ParseDocument(text)
    case Err(_) => None
    case Ok(root) => FindCi(root, Ascii("request"))
  }

  function HandleRequest(cfg: Config, s: State, link: nat, node: Json.Value, onControl: bool): (t: State)
    requires link < |s.w.links|
    ensures Within(s, t) && t.renewAt == s.renewAt
  {
    var pr := ParseRequest(node);
    if onControl && pr.method_.None? then
      if pr.address.None? then s.Log(Emit(RequestError)) else Offer(cfg, s, pr.address.value)
    else Serve(cfg, s, link, node, onControl)
  }

  function HandleControl(cfg: Config, s: State, ctrl: nat, text: Bytes): (t: State)
    requires ctrl < |s.w.links|
    ensures Within(s, t) && t.renewAt == s.renewAt
  {
    match JsonText.ParseDocument(text)
    case Err(_) => s.Log(Emit(Unparsable))
    case Ok(root) =>
      match FindCi(root, Ascii("request"))
      case Some(req) => HandleRequest(cfg, s, ctrl, req, true)
      case None => s.Log(Emit(if FindCi(root, Ascii("accept")).Some? then AcceptIgnored else Control))
  }

  // --------------------------------------------------------------- sessions

  /** Pings if it is time to. */
  function PingIfDue(s: State, ctrl: nat): (t: State)
    requires ctrl < |s.w.links|
    ensures t.w.stops == s.w.stops && |t.w.links| == |s.w.links| && t.ctrl == s.ctrl && t.renewAt == s.renewAt
  {
    var s1 := s.Tick();
    if s1.w.now.mono >= s.nextPing then
      s1.(w := s1.w.Ping(ctrl), nextPing := s1.w.now.mono + PING_INTERVAL)
    else s1
  }

  /** One pass of the session loop; the flag says whether the session goes on. */
  function Iterate(cfg: Config, s: State, ctrl: nat): (r: (State, bool))
    requires ctrl < |s.w.links|
    ensures r.0.w.stops == s.w.stops && |r.0.w.links| >= |s.w.links|
  {
    var s1 := PingIfDue(RenewIfDue(cfg, s, ctrl), ctrl);
    var (w, m) := s1.w.Recv(ctrl);
    var s2 := s1.(w := w);
    match m
    case Err(e) => if e == Timeout then (s2, true) else (s2.Log(Emit(Disconnected)), false)
    case Ok(m) =>
      match m.kind
      case Close => (s2.Log(Emit(Disconnected)), false)
      case Text => (HandleControl(cfg, s2, ctrl, m.payload), true)
      case Binary => (s2, true)
  }

  /** The session loop, until a stop is asked for or the channel is lost. */
  function Session(cfg: Config, s: State, ctrl: nat): (t: State)
    requires ctrl < |s.w.links|
    ensures |t.w.stops| <= |s.w.stops|
    decreases |s.w.stops|
  {
    var (w, stop) := s.w.Ask();
    var s1 := s.(w := w);
    if stop then s1 else
    var (s2, goesOn) := Iterate(cfg, s1, ctrl);
    if goesOn then Session(cfg, s2, ctrl) else s2
  }

  /** Sleeps out a backoff in steps of 100 ms, as long as no stop is asked for. */
  function WaitOut(s: State, waited: nat, budget: nat): (t: State)
    ensures |t.w.stops| <= |s.w.stops|
    decreases budget - waited
  {
    if waited >= budget then s else
    var (w, stop) := s.w.Ask();
    var s1 := s.(w := w);
    if stop then s1 else WaitOut(s1.Log(Slept), waited + 100, budget)
  }

  /** The end of a session: a goodbye if a stop is asked for. */
  function EndSession(s: State, ctrl: nat): (t: State)
    ensures |t.w.stops| <= |s.w.stops|
  {
    var (w, stop) := s.w.Ask();
    var s1 := s.(w := w, ctrl := None);
    if stop then s1.Log(SaidGoodbye(ctrl)) else s1
  }

  function NextBackoff(backoff: nat): nat {
    if backoff < 60000 then backoff * 2 else backoff
  }

  /** The whole run, from the outer loop's head. */
  function Run(cfg: Config, s: State, backoff: nat): State
    decreases |s.w.stops|
  {
    var (w, stop) := s.w.Ask();
    var s1 := s.(w := w);
    if stop then s1.Log(Emit(Stopped)) else
    var (s2, status) := CtrlConnect(cfg, s1.Log(Emit(Connecting)));
    if status.Err? then
      Run(cfg, WaitOut(s2.Log(Emit(ConnectFailed)).Log(Backoff(backoff)), 0, backoff), NextBackoff(backoff))
    else
      var ctrl := |s1.w.links|;
      Run(cfg, EndSession(Session(cfg, s2.Log(Emit(Connected)), ctrl), ctrl), 1000)
  }
}
