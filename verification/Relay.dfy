/** The relay listener as it runs: an object whose fields change step by step. */
module Relay {
  import opened Common
  import opened RelayWorld
  import opened RelaySpec
  import opened RelayMonitors
  import RelayRuns
  import RelayAnswers
  import RelayHandler
  import RelayTokens
  import RelayTurns
  import Messages
  import Json
  import JsonText

  /** What every run keeps, put together. */
  lemma RunKeeps(cfg: Config, s: State)
    ensures s.w.trace == [] ==> PhaseOf(RelaySpec.Run(cfg, s, 1000).w.trace) == Finished
    ensures s.w.trace == [] ==> RelayTurns.AllInTurn(RelaySpec.Run(cfg, s, 1000).w.trace)
    ensures RelayAnswers.Settled(s) ==> RelayAnswers.Settled(RelaySpec.Run(cfg, s, 1000))
    ensures RelayHandler.Heeds(cfg.hasHandler, s.w, RelaySpec.Run(cfg, s, 1000).w)
    ensures cfg.ttl > 0 && RelayTokens.Starting(s) ==>
              var x := AuditOf(RelayTokens.Plain(cfg), RelaySpec.Run(cfg, s, 1000).w.trace);
              x.honest && TriggerSound(x.trigger)
  {
    hide RelayAnswers.Settled, RelaySpec.Run, AuditOf, RelayTurns.AllInTurn, RelayHandler.Heeds;
    RelayHandler.RunHeeds(cfg, s, 1000);
    if s.w.trace == [] {
      RelayRuns.RunShape(cfg, s, 1000, 0);
      RelayTurns.RunInTurn(cfg, s, 1000);
    }
    if RelayAnswers.Settled(s) {
      RelayAnswers.RunAnswers(cfg, s, 1000);
    }
    if cfg.ttl > 0 && RelayTokens.Starting(s) {
      RelayTokens.TriggerOverRuns(RelayTokens.Plain(cfg), cfg, s);
      RelayTokens.TokensShown(RelayTokens.Plain(cfg), cfg, s);
    }
  }

  /** The conclusion of `RelayTokens.TriggerOverRuns`. */
  predicate TriggerSound(y: Trigger) {
    y.latest && (y.tracked <==> y.level) && (y.clean ==> y.tracked) && (y.tracked ==> !y.missed)
  }

  /** Does a response with this id answer that call? */
  predicate Matches(c: Call, id: Bytes, resp: Response) {
    c.request.id == id && c.response == resp
  }

  class Listener {
    const cfg: Config
    var env: World
    var ctrl: Option<nat>
    var tokenRenewAt: nat
    var tokenExpiryWall: nat
    var nextPingAt: nat

    ghost function Now(): State
      reads this
    {
      State(env, ctrl, tokenRenewAt, tokenExpiryWall, nextPingAt)
    }

    constructor (cfg: Config, env: World)
      ensures this.cfg == cfg && Now() == State(env, None, 0, 0, 0)
    {
      this.cfg := cfg;
      this.env := env;
      ctrl := None;
      tokenRenewAt, tokenExpiryWall, nextPingAt := 0, 0, 0;
    }

    // ------------------------------------------------------ the outside world

    method Log(a: Action)
      modifies this`env
      ensures Now() == old(Now()).Log(a)
    {
      env := env.Log(a);
    }

    method Clock() returns (now: Instant)
      modifies this`env
      ensures Now() == old(Now()).Tick() && now == env.now
    {
      env := env.Tick();
      now := env.now;
    }

    method Stop() returns (stop: bool)
      modifies this`env
      ensures (env, stop) == old(env).Ask()
    {
      var (w, answer) := env.Ask();
      env := w;
      stop := answer;
    }

    method Send(link: nat, cause: Cause, m: Message) returns (ok: bool)
      requires link < |env.links|
      modifies this`env
      ensures (env, ok) == old(env).Send(link, cause, m)
    {
      var (w, sent) := env.Send(link, cause, m);
      env := w;
      ok := sent;
    }

    method Recv(link: nat) returns (m: Result<Message>)
      requires link < |env.links|
      modifies this`env
      ensures (env, m) == old(env).Recv(link)
    {
      var (w, r) := env.Recv(link);
      env := w;
      m := r;
    }

    method Ping(link: nat)
      requires link < |env.links|
      modifies this`env
      ensures env == old(env).Ping(link)
    {
      env := env.Ping(link);
    }

    method Dial(purpose: Purpose, token: Option<Bytes>) returns (r: Result<nat>)
      modifies this`env
      ensures (env, r) == old(env).Dial(purpose, token)
    {
      var (w, reached) := env.Dial(purpose, token);
      env := w;
      r := reached;
    }

    // ----------------------------------------------------------------- tokens

    method MakeToken() returns (token: Bytes)
      modifies this`env, this`tokenExpiryWall
      ensures (Now(), token) == RelaySpec.MakeToken(cfg, old(Now()))
      ensures RelayRuns.Stamped(RelayTokens.Plain(cfg), Now())
    {
      RelayRuns.MintKeeps(RelayTokens.Plain(cfg), cfg, Now());
      var now := Clock();
      tokenExpiryWall := now.wall + cfg.ttl;
      var (w, t) := env.NextToken();
      env := w;
      token := t;
      Log(Minted(now, t));
    }

    method CtrlConnect() returns (status: Result<()>)
      modifies this
      ensures (Now(), status) == RelaySpec.CtrlConnect(cfg, old(Now()))
      ensures status.Ok? ==>
                && ctrl == Some(|old(env.links)|) && |env.links| == |old(env.links)| + 1
                && RelayTokens.WallTriggerTracks(RelayTokens.Plain(cfg), Now())
      ensures AuditOf(RelayTokens.Plain(cfg), env.trace).honest == old(AuditOf(RelayTokens.Plain(cfg), env.trace).honest)
      ensures status.Err? ==> ctrl == old(ctrl) && tokenRenewAt == old(tokenRenewAt) && nextPingAt == old(nextPingAt)
    {
      hide RelaySpec.MakeToken, AuditOf;
      RelayTokens.ConnectAudit(RelayTokens.Plain(cfg), cfg, Now());
      var token := MakeToken();
      if token == [] {
        return Err(Fail);
      }
      var ws := Dial(ForControl, Some(token));
      if ws.Err? {
        return Err(ws.error);
      }
      ctrl := Some(ws.value);
      var now := Clock();
      tokenRenewAt := now.mono + cfg.ttl * 1000 * 3 / 4;
      nextPingAt := now.mono + PING_INTERVAL;
      Log(DeadlineSet(now));
      return Ok(());
    }

    method RenewTokenIfDue(link: nat)
      requires link < |env.links|
      modifies this`env, this`tokenRenewAt, this`tokenExpiryWall
      ensures Now() == RenewIfDue(cfg, old(Now()), link)
      ensures if RelayTokens.RenewedSince(old(env.trace), env.trace)
              then tokenRenewAt == env.now.mono + 750 * cfg.ttl &&
                   RelayTokens.WallTriggerTracks(RelayTokens.Plain(cfg), Now())
              else tokenRenewAt == old(tokenRenewAt)
      ensures AuditOf(RelayTokens.Plain(cfg), env.trace).honest == old(AuditOf(RelayTokens.Plain(cfg), env.trace).honest)
    {
      hide RelaySpec.MakeToken, RenewMessage, AuditOf, RelayRuns.Stamped, RelayTokens.RenewedSince;
      hide RelayTokens.WallTriggerTracks;
      RelayTokens.DeadlineMovesWithRenewal(cfg, Now(), link);
      var mono := Clock();
      var wall := Clock();
      Log(Checked(mono, wall, tokenExpiryWall));
      if !RenewalDue(mono.mono, tokenRenewAt, wall.wall, tokenExpiryWall, cfg.ttl) {
        return;
      }
      var token := MakeToken();
      if token == [] {
        Log(NotRenewed);
        return;
      }
      var ok := Send(link, Renewal, RenewMessage(token));
      if ok {
        var now := Clock();
        tokenRenewAt := now.mono + cfg.ttl * 1000 * 3 / 4;
        Log(DeadlineSet(now));
        Log(Emit(TokenRenewed));
      }
    }

    // --------------------------------------------------------------- requests

    method SendResponseOver(link: nat, id: Bytes, resp: Response) returns (ok: bool)
      requires link < |env.links|
      modifies this`env
      ensures (Now(), ok) == SendResponse(old(Now()), link, id, resp)
      ensures var owed := old(OwedOf(env.trace));
              owed.Text? && RightLink(owed.call, owed.stage, link) && Matches(owed.call, id, resp) ==>
                OwedOf(env.trace) == ReportDue(owed.call, link, ok)
    {
      hide ResponseText, OwedOf, RightLink;
      ghost var owed := OwedOf(env.trace);
      if owed.Text? && RightLink(owed.call, owed.stage, link) && Matches(owed.call, id, resp) {
        RelayAnswers.SendResponseAnswers(Now(), owed.call, owed.stage, link);
      }
      ok := Send(link, Reply, ResponseText(id, resp));
      if !ok {
        return;
      }
      if resp.body != [] {
        ok := Send(link, Reply, Messages.Message(Messages.Binary, resp.body));
      }
    }

    method RendezvousConnect(address: Bytes) returns (r: Result<nat>)
      modifies this`env, this`tokenExpiryWall
      ensures (Now(), r) == RelaySpec.RendezvousConnect(cfg, old(Now()), address)
      ensures r.Ok? ==> r.value == |old(env.links)| && |env.links| == |old(env.links)| + 1
      ensures var owed := old(OwedOf(env.trace));
              owed.Text? && owed.stage.Untried? && Big(owed.call) && owed.call.address == Some(address) && old(RelayRuns.Placed(Now())) ==>
                OwedOf(env.trace) == Text(owed.call, if r.Ok? then Reached(r.value) else Refused)
    {
      hide RelaySpec.MakeToken, OwedOf, Big, RelayRuns.Stamped;
      ghost var owed := OwedOf(env.trace);
      if owed.Text? && owed.stage.Untried? && Big(owed.call) && owed.call.address == Some(address) && RelayRuns.Placed(Now()) {
        RelayAnswers.RendezvousForAnswer(cfg, Now(), owed.call);
      }
      var (w, route) := env.NextRoute();
      env := w;
      if route.Unusable? {
        Log(AddressRefused);
        return Err(route.error);
      }
      var shown := None;
      if !route.carriesToken {
        var token := MakeToken();
        if token != [] {
          shown := Some(token);
        }
      }
      r := Dial(ForRendezvous(address), shown);
    }

    method ReadBody(link: nat, expected: bool) returns (r: Result<Bytes>)
      requires link < |env.links|
      modifies this`env
      ensures (Now(), r) == RelaySpec.ReadBody(old(Now()), link, expected)
      ensures var inbox := old(env.links[link].inbox);
              && (r.Ok? <==> !expected || (inbox != [] && inbox[0].Ok? && inbox[0].value.kind == Messages.Binary))
              && (r.Ok? && expected ==> inbox[0] == Ok(Messages.Message(Messages.Binary, r.value)))
              && env.links[link].inbox == if expected && inbox != [] then inbox[1..] else inbox
    {
      if !expected {
        return Ok([]);
      }
      var m := Recv(link);
      if m.Err? {
        return Err(m.error);
      }
      if m.value.kind != Messages.Binary {
        return Err(Protocol);
      }
      return Ok(m.value.payload);
    }

    method InvokeHandler() returns (resp: Response)
      modifies this`env
      ensures (Now(), resp) == Invoke(cfg, old(Now()))
      ensures resp == RelayHandler.Said(cfg.hasHandler, old(env.answers), 0)
      ensures env.answers == if cfg.hasHandler then RelayHandler.Later(old(env.answers), 1) else old(env.answers)
    {
      resp := DefaultResponse();
      if !cfg.hasHandler {
        resp := resp.(code := 501, desc := Ascii("Not Implemented"));
        return;
      }
      var (w, answer) := env.NextAnswer();
      env := w;
      if answer.Some? {
        resp := answer.value;
      }
    }

    method DeliverResponse(link: nat, pr: ParsedRequest, resp: Response, onControl: bool) returns (ok: bool)
      requires link < |env.links|
      modifies this`env, this`tokenExpiryWall
      ensures (Now(), ok) == Deliver(cfg, old(Now()), link, pr, resp, onControl)
      ensures var owed := old(OwedOf(env.trace));
              owed.Text? && owed.stage.Untried? && Matches(owed.call, pr.id, resp) &&
              owed.call.link == link && owed.call.onControl == onControl && owed.call.address == pr.address &&
              old(RelayRuns.Placed(Now())) ==>
                OwedOf(env.trace) == Report(owed.call, None, ok)
    {
      hide SendResponse, RelaySpec.RendezvousConnect, OwedOf, Big, RightLink;
      ghost var owed := OwedOf(env.trace);
      if owed.Text? && owed.stage.Untried? && Matches(owed.call, pr.id, resp) &&
         owed.call.link == link && owed.call.onControl == onControl && owed.call.address == pr.address &&
         RelayRuns.Placed(Now()) {
        RelayAnswers.DeliverAnswers(cfg, Now(), owed.call, pr);
      }
      if NeedsRendezvous(onControl, |resp.body|, pr.address.Some?) {
        var rws := RendezvousConnect(pr.address.value);
        if rws.Ok? {
          ok := SendResponseOver(rws.value, pr.id, resp);
          Log(SaidGoodbye(rws.value));
          return;
        }
      }
      ok := SendResponseOver(link, pr.id, resp);
    }

    /** The second half of `HandleRequest`: a request whose method is known, or that came over a rendezvous. */
    method ServeRequest(link: nat, node: Json.Value, pr: ParsedRequest, onControl: bool)
      requires link < |env.links| && pr == ParseRequest(node)
      modifies this`env, this`tokenExpiryWall
      ensures Now() == Serve(cfg, old(Now()), link, node, onControl)
      ensures old(RelayAnswers.Ready(Now(), link, node, onControl)) ==> RelayAnswers.Settled(Now())
    {
      hide RelaySpec.ReadBody, Deliver, Invoke, ParseRequest, FindCi, RelayAnswers.Settled, RelayAnswers.Ready;
      if RelayAnswers.Ready(Now(), link, node, onControl) {
        RelayAnswers.ServeAnswers(cfg, Now(), link, node, onControl);
      }
      var body := ReadBody(link, pr.hasBody);
      if body.Err? {
        Log(Emit(RequestError));
        return;
      }
      var headers := FindCi(node, Ascii("requestHeaders"));
      var req := Request(pr.id, OrElse(pr.method_, []), pr.target, headers, body.value);
      var resp := InvokeHandler();
      Log(Handled(Call(link, onControl, pr.address, req, resp)));
      var ok := DeliverResponse(link, pr, resp, onControl);
      if !ok {
        Log(Emit(ResponseError));
      } else {
        Log(Emit(ResponseSent(resp.code)));
      }
    }

    method HandleRendezvousOffer(address: Bytes)
      modifies this`env, this`tokenExpiryWall
      ensures Now() == Offer(cfg, old(Now()), address)
      ensures old(RelayAnswers.Offered(Now(), address)) ==> RelayAnswers.Settled(Now())
      decreases true, 0
    {
      hide RelaySpec.RendezvousConnect, Serve, JsonText.ParseDocument, FindCi, ParseRequest, RelayAnswers.Settled, RelayAnswers.Offered;
      if RelayAnswers.Offered(Now(), address) {
        RelayAnswers.OfferAnswers(cfg, Now(), address);
      }
      Log(Emit(Rendezvous));
      var rws := RendezvousConnect(address);
      if rws.Err? {
        Log(Emit(RendezvousFailed));
        return;
      }
      var m := Recv(rws.value);
      if m.Ok? && m.value.kind == Messages.Text {
        var root := JsonText.ParseDocument(m.value.payload);
        if root.Ok? {
          var inner := FindCi(root.value, Ascii("request"));
          if inner.Some? {
            HandleRequest(rws.value, inner.value, false);
          }
        }
      }
      Log(SaidGoodbye(rws.value));
    }

    method HandleRequest(link: nat, node: Json.Value, onControl: bool)
      requires link < |env.links|
      modifies this`env, this`tokenExpiryWall
      ensures Now() == RelaySpec.HandleRequest(cfg, old(Now()), link, node, onControl)
      decreases onControl, 1
    {
      hide Serve, Offer, ParseRequest;
      var pr := ParseRequest(node);
      if onControl && pr.method_.None? {
        if pr.address.None? {
          Log(Emit(RequestError));
          return;
        }
        HandleRendezvousOffer(pr.address.value);
        return;
      }
      ServeRequest(link, node, pr, onControl);
    }

    method HandleControlMessage(link: nat, payload: Bytes)
      requires link < |env.links|
      modifies this`env, this`tokenExpiryWall
      ensures Now() == HandleControl(cfg, old(Now()), link, payload)
      ensures old(RelayAnswers.Attending(Now(), link, payload)) ==> RelayAnswers.Settled(Now())
    {
      hide JsonText.ParseDocument, FindCi, RelaySpec.HandleRequest, RelayAnswers.Settled, RelayAnswers.Attending;
      if RelayAnswers.Attending(Now(), link, payload) {
        RelayAnswers.HandleControlSettled(cfg, Now(), link, payload);
      }
      var root := JsonText.ParseDocument(payload);
      if root.Err? {
        Log(Emit(Unparsable));
        return;
      }
      var req := FindCi(root.value, Ascii("request"));
      if req.Some? {
        HandleRequest(link, req.value, true);
        return;
      }
      if FindCi(root.value, Ascii("accept")).Some? {
        Log(Emit(AcceptIgnored));
        return;
      }
      Log(Emit(Control));
    }

    // --------------------------------------------------------------- sessions

    /** One pass of the session loop. */
    method Tend(link: nat) returns (goesOn: bool)
      requires link < |env.links|
      modifies this`env, this`tokenRenewAt, this`tokenExpiryWall, this`nextPingAt
      ensures (Now(), goesOn) == Iterate(cfg, old(Now()), link)
    {
      hide RenewIfDue, HandleControl, FindCi, JsonText.ParseDocument;
      RenewTokenIfDue(link);
      var now := Clock();
      if now.mono >= nextPingAt {
        Ping(link);
        nextPingAt := now.mono + PING_INTERVAL;
      }
      var m := Recv(link);
      if m.Err? {
        if m.error == Timeout {
          return true;
        }
        Log(Emit(Disconnected));
        return false;
      }
      if m.value.kind == Messages.Close {
        Log(Emit(Disconnected));
        return false;
      }
      if m.value.kind == Messages.Text {
        HandleControlMessage(link, m.value.payload);
      }
      return true;
    }

    method Attend(link: nat)
      requires link < |env.links|
      modifies this`env, this`tokenRenewAt, this`tokenExpiryWall, this`nextPingAt
      ensures Now() == Session(cfg, old(Now()), link)
    {
      hide Iterate;
      var stop := Stop();
      while !stop
        invariant link < |env.links|
        invariant old(Session(cfg, Now(), link)) == SessionAfter(stop, link)
        decreases !stop, |env.stops|
      {
        var goesOn := Tend(link);
        if !goesOn {
          return;
        }
        stop := Stop();
      }
    }

    /** What a session comes to once the loop's condition has been asked. */
    ghost function SessionAfter(stop: bool, link: nat): State
      requires link < |env.links|
      reads this
    {
      if stop then Now() else
      var (t, goesOn) := Iterate(cfg, Now(), link);
      if goesOn then Session(cfg, t, link) else t
    }

    method Doze(budget: nat)
      modifies this`env
      ensures Now() == WaitOut(old(Now()), 0, budget)
    {
      var waited := 0;
      while waited < budget
        invariant waited >= 0
        invariant WaitOut(Now(), waited, budget) == old(WaitOut(Now(), 0, budget))
      {
        var stop := Stop();
        if stop {
          return;
        }
        Log(Slept);
        waited := waited + 100;
      }
    }

    method Run()
      modifies this
      ensures Now() == RelaySpec.Run(cfg, old(Now()), 1000)
      ensures old(env.trace) == [] ==> PhaseOf(env.trace) == Finished && RelayTurns.AllInTurn(env.trace)
      ensures RelayAnswers.Settled(old(Now())) ==> RelayAnswers.Settled(Now())
      ensures RelayHandler.Heeds(cfg.hasHandler, old(env), env)
      ensures cfg.ttl > 0 && RelayTokens.Starting(old(Now())) ==>
                var x := AuditOf(RelayTokens.Plain(cfg), env.trace); x.honest && TriggerSound(x.trigger)
    {
      hide RelaySpec.CtrlConnect, Session, WaitOut, EndSession, RelayAnswers.Settled, AuditOf, RelayTurns.AllInTurn, RelayHandler.Heeds;
      ghost var start := Now();
      var backoff: nat := 1000;
      var stop := Stop();
      while !stop
        invariant old(RelaySpec.Run(cfg, Now(), 1000)) == RunAfter(stop, backoff)
        decreases !stop, |env.stops|
      {
        Log(Emit(Connecting));
        var status := CtrlConnect();
        if status.Err? {
          Log(Emit(ConnectFailed));
          Log(Backoff(backoff));
          Doze(backoff);
          if backoff < 60000 {
            backoff := backoff * 2;
          }
        } else {
          backoff := 1000;
          Log(Emit(Connected));
          var link := ctrl.value;
          Attend(link);
          Part(link);
        }
        stop := Stop();
      }
      Log(Emit(Stopped));
      RunKeeps(cfg, start);
    }

    /** What a run comes to once the outer loop's condition has been asked. */
    ghost function RunAfter(stop: bool, backoff: nat): State
      reads this
    {
      if stop then Now().Log(Emit(Stopped)) else
      var (s2, status) := RelaySpec.CtrlConnect(cfg, Now().Log(Emit(Connecting)));
      if status.Err? then
        RelaySpec.Run(cfg, WaitOut(s2.Log(Emit(ConnectFailed)).Log(Backoff(backoff)), 0, backoff), NextBackoff(backoff))
      else
        RelaySpec.Run(cfg, EndSession(Session(cfg, s2.Log(Emit(Connected)), |env.links|), |env.links|), 1000)
    }

    method Part(link: nat)
      modifies this`env, this`ctrl
      ensures Now() == EndSession(old(Now()), link)
    {
      var stop := Stop();
      if stop {
        Log(SaidGoodbye(link));
      }
      ctrl := None;
    }
  }
}
