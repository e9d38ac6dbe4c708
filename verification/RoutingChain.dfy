/** Remote calls over a chain of endpoints: every endpoint between the root and
    the RC root is in the forwarding loop of its own direct request
    (components/messaging/ffa/libsp/ffa_direct_msg_routing_extension.c, lines
    127 to 185). */
module RoutingChain {
  import opened Words
  import opened Routing
  import opened RoutingScripts
  import opened RoutingEndpoint

  /** An RC message of the caller. */
  ghost predicate Answer(caller: uint16, down: Reply) {
    down.Delivered? && !down.wide && down.body[0] >= 0x8000_0000 && down.source == caller
  }

  /** Replies that keep an endpoint waiting for its caller: none brings the
      expected message, the first call does not fail, and no two in a row do. */
  ghost predicate Noise(caller: uint16, rc: Message, noise: seq<Reply>) {
    && (noise != [] ==> !Fails(noise, 0))
    && (forall i: nat :: i + 1 < |noise| ==> !(Fails(noise, i) && Fails(noise, i + 1)))
    && (forall j: nat :: 1 <= j <= |noise| ==> !Expected(Held(rc, noise, j), caller))
  }

  /** A 32-bit message as its receiver sees it while it waits for a request. */
  function AsRequest(r: Reply): Message
    requires r.Delivered?
  {
    Message(Kind.Request, false, r.source, r.destination, Narrow(r.body))
  }

  /** And while it waits for a response. */
  function AsResponse(r: Reply): Message
    requires r.Delivered?
  {
    Message(Kind.Response, false, r.source, r.destination, Narrow(r.body))
  }

  lemma {:induction false} HeldPrefix(m: Message, a: seq<Reply>, b: seq<Reply>, j: nat)
    requires j <= |a|
    ensures Held(m, a + b, j) == Held(m, a, j)
  {
    if j > 0 { HeldPrefix(m, a, b, j - 1); }
  }

  lemma NoiseHeld(caller: uint16, rc: Message, noise: seq<Reply>, down: Reply, rest: seq<Reply>)
    requires Noise(caller, rc, noise) && Answer(caller, down)
    ensures var script := noise + [down] + rest;
            && (forall j: nat :: 1 <= j <= |noise| ==> !Expected(Held(rc, script, j), caller))
            && Held(rc, script, |noise| + 1) == AsRequest(down) && Expected(AsRequest(down), caller)
  {
    var script := noise + [down] + rest;
    assert script == noise + ([down] + rest);
    forall j: nat | 1 <= j <= |noise| ensures !Expected(Held(rc, script, j), caller) {
      HeldPrefix(rc, noise, [down] + rest, j);
    }
    assert script[|noise|] == down;
  }

  lemma NoiseStop(caller: uint16, rc: Message, noise: seq<Reply>, down: Reply, rest: seq<Reply>)
    requires Noise(caller, rc, noise) && Answer(caller, down)
    ensures var script := noise + [down] + rest; !Fails(script, 0) && |noise| <= Stop(script[1..])
  {
    hide Held, Expected;
    var script := noise + [down] + rest;
    StopIsFirst(script[1..]);
    forall i: nat | i < |noise| ensures !(Fails(script[1..], i) && Fails(script[1..], i + 1)) {
      if i + 2 < |noise| {
        assert !(Fails(noise, i + 1) && Fails(noise, i + 1 + 1));
      } else {
        assert !Fails(script, |noise|);
      }
    }
  }

  /** However many other messages come first, a response to the caller gets its
      answer. */
  lemma NoiseDenied(call: Call, caller: uint16, rc: Message, noise: seq<Reply>, down: Reply, rest: seq<Reply>,
                    log: seq<Call>)
    requires call.SendResp? && Noise(caller, rc, noise) && Answer(caller, down)
    ensures var script := noise + [down] + rest; var up := Svc(call, rc, script, log);
            && up.res == OK && up.log == log + [call] && Turn(caller, rc, script) == |noise| + 1
            && var d := DenyRequests(caller, up.msg, up.script, up.log);
               d.res == OK && d.msg == AsRequest(down) && d.script == rest && OnlyErrors(up.log, d.log, BUSY)
  {
    hide Held, Expected, DenyRequests, Fill, OnlyErrors, Noise;
    var script := noise + [down] + rest;
    NoiseHeld(caller, rc, noise, down, rest);
    NoiseStop(caller, rc, noise, down, rest);
    var up := Svc(call, rc, script, log);
    var m1, tail := Fill(Wait, script[0], rc), script[1..];
    SameFill(call, script[0], rc);
    forall j: nat ensures Held(m1, tail, j) == Held(rc, script, j + 1) { HeldShift(rc, script, j); }
    var n := Arrival(caller, m1, tail);
    assert Expected(Held(m1, tail, |noise|), caller);
    assert n == |noise|;
    DenyExact(caller, m1, tail, up.log);
    DenyRequestsSends(caller, m1, tail, up.log);
    assert Rest(tail, |noise|) == rest;
  }

  // ------------------------------------------------------------ one hop

  datatype Hop = Hop(own: uint16, caller: uint16, callee: uint16)

  /** One remote call as a hop sees it: other messages, the caller's answer, and
      what the callee says next. */
  datatype Round = Round(noise: seq<Reply>, down: Reply, next: Reply)

  ghost function Script(rounds: seq<Round>): seq<Reply> {
    if rounds == [] then [] else rounds[0].noise + [rounds[0].down, rounds[0].next] + Script(rounds[1..])
  }

  /** The callee's message of round t, and its response for t = |rounds|. */
  ghost function Asked(m: Message, rounds: seq<Round>, t: nat): Message
    requires t <= |rounds| && forall i :: 0 <= i < |rounds| ==> rounds[i].next.Delivered?
  {
    if t == 0 then m else AsResponse(rounds[t - 1].next)
  }

  /** A hop in its forwarding loop whose callee makes a remote call in each round
      and then responds; in each round its caller answers. */
  ghost predicate Regular(hop: Hop, m: Message, rc: Message, rounds: seq<Round>)
    decreases |rounds|
  {
    if rounds == [] then !IsRc(m)
    else
      && RcRequest(m) && Noise(hop.caller, rc, rounds[0].noise) && Answer(hop.caller, rounds[0].down)
      && rounds[0].next.Delivered? && Regular(hop, AsResponse(rounds[0].next), AsRequest(rounds[0].down), rounds[1..])
  }

  /** The call that passes the caller's answer on. */
  function Down(hop: Hop, down: Reply): Call
    requires down.Delivered?
  {
    SendReq(false, hop.own, hop.callee, Narrow(down.body))
  }

  predicate IsUp(c: Call) { c.SendResp? && RC_BIT <= c.body[0] < RC_BIT + ERROR_BIT }

  /** The RC requests among some calls, error messages aside. */
  ghost function Ups(calls: seq<Call>): seq<Call> {
    if calls == [] then []
    else
      var c := calls[|calls| - 1];
      Ups(calls[..|calls| - 1]) + if IsUp(c) then [c] else []
  }

  /** The direct requests among some calls. */
  ghost function Downs(calls: seq<Call>): seq<Call> {
    if calls == [] then []
    else
      var c := calls[|calls| - 1];
      Downs(calls[..|calls| - 1]) + if c.SendReq? then [c] else []
  }

  lemma Snoc(calls: seq<Call>, c: Call)
    ensures Ups(calls + [c]) == Ups(calls) + if IsUp(c) then [c] else []
    ensures Downs(calls + [c]) == Downs(calls) + if c.SendReq? then [c] else []
  {
    assert (calls + [c])[..|calls|] == calls;
  }

  lemma {:induction false} ErrorsAside(log: seq<Call>, log': seq<Call>, code: int32)
    requires OnlyErrors(log, log', code)
    ensures Ups(log') == Ups(log) && Downs(log') == Downs(log)
    decreases |log'|
  {
    if |log'| > |log| {
      var n := |log'| - 1;
      ErrorsAside(log, log'[..n], code);
      assert !IsUp(log'[n]) && !log'[n].SendReq?;
    } else {
      assert log' == log;
    }
  }

  /** One round of a hop: the callee's request goes up, the caller's answer goes
      down, and the loop goes on with what the callee says next. */
  lemma OneRound(hop: Hop, m: Message, rc: Message, round: Round, rest: seq<Reply>,
                 log: seq<Call>) returns (log1: seq<Call>)
    requires RcRequest(m) && Noise(hop.caller, rc, round.noise) && Answer(hop.caller, round.down)
             && round.next.Delivered?
    ensures Forward(hop.own, hop.caller, hop.callee, m, rc, round.noise + [round.down, round.next] + rest, log)
         == Forward(hop.own, hop.caller, hop.callee, AsResponse(round.next), AsRequest(round.down), rest, log1)
    ensures Ups(log1) == Ups(log) + [UpCall(hop.own, hop.caller, m)]
            && Downs(log1) == Downs(log) + [Down(hop, round.down)]
  {
    hide Forward, DenyRequests, Held, Noise, Ups, Downs, OnlyErrors, Turn;
    var k := |round.noise| + 1;
    var script := round.noise + [round.down] + ([round.next] + rest);
    assert round.noise + [round.down, round.next] + rest == script;
    var call := UpCall(hop.own, hop.caller, m);
    NoiseDenied(call, hop.caller, rc, round.noise, round.down, [round.next] + rest, log);
    NoiseHeld(hop.caller, rc, round.noise, round.down, [round.next] + rest);
    ForwardStep(hop.own, hop.caller, hop.callee, m, rc, script, log);
    var d := Passed(hop.own, hop.caller, m, rc, script, log);
    assert script[k] == round.next && script[k + 1..] == rest;
    log1 := d.log + [DownCall(hop.own, hop.callee, d)];
    NarrowTwice(round.down.body);
    NarrowTwice(m.body);
    Snoc(log, call);
    ErrorsAside(log + [call], d.log, BUSY);
    Snoc(d.log, DownCall(hop.own, hop.callee, d));
  }

  lemma NarrowTwice(b: Body)
    ensures Narrow(Narrow(b)) == Narrow(b) && Narrow(b)[0] == b[0] && Narrow(b)[1] == b[1]
  {
  }

  ghost function UpCalls(hop: Hop, m: Message, rounds: seq<Round>): seq<Call>
    requires forall i :: 0 <= i < |rounds| ==> rounds[i].next.Delivered?
  {
    seq(|rounds|, t requires 0 <= t < |rounds| => UpCall(hop.own, hop.caller, Asked(m, rounds, t)))
  }

  ghost function DownCalls(hop: Hop, rounds: seq<Round>): seq<Call>
    requires forall i :: 0 <= i < |rounds| ==> rounds[i].down.Delivered?
  {
    seq(|rounds|, t requires 0 <= t < |rounds| => Down(hop, rounds[t].down))
  }

  lemma {:induction false} AllDelivered(hop: Hop, m: Message, rc: Message, rounds: seq<Round>)
    requires Regular(hop, m, rc, rounds)
    ensures forall i :: 0 <= i < |rounds| ==> rounds[i].next.Delivered? && Answer(hop.caller, rounds[i].down)
    ensures forall t :: 0 <= t < |rounds| ==> RcRequest(Asked(m, rounds, t))
    ensures !IsRc(Asked(m, rounds, |rounds|))
    decreases |rounds|
  {
    hide Noise, RcRequest, IsRc;
    if rounds != [] {
      var m1, rest := AsResponse(rounds[0].next), rounds[1..];
      AllDelivered(hop, m1, AsRequest(rounds[0].down), rest);
      forall t | 0 < t <= |rounds| ensures Asked(m, rounds, t) == Asked(m1, rest, t - 1) {
      }
    }
  }

  /** Any number of rounds: the hop passes up every request of its callee, in
      order, passes down every answer of its caller, in order, and ends with the
      callee's response. */
  lemma {:induction false} HopRounds(hop: Hop, m: Message, rc: Message, rounds: seq<Round>, rest: seq<Reply>,
                                     log: seq<Call>)
    requires Regular(hop, m, rc, rounds)
    ensures forall i :: 0 <= i < |rounds| ==> rounds[i].next.Delivered? && rounds[i].down.Delivered?
    ensures var r := Forward(hop.own, hop.caller, hop.callee, m, rc, Script(rounds) + rest, log);
            && r.res == OK && r.msg == Asked(m, rounds, |rounds|) && r.script == rest
            && Ups(r.log) == Ups(log) + UpCalls(hop, m, rounds) && Downs(r.log) == Downs(log) + DownCalls(hop, rounds)
    decreases |rounds|
  {
    hide Forward, Noise, IsRc, Ups, Downs, Narrow;
    AllDelivered(hop, m, rc, rounds);
    if rounds == [] {
      ForwardEnds(hop.own, hop.caller, hop.callee, m, rc, rest, log);
      assert Script(rounds) + rest == rest;
    } else {
      var first, more := rounds[0], rounds[1..];
      var m1, rc1 := AsResponse(first.next), AsRequest(first.down);
      assert Script(rounds) + rest == first.noise + [first.down, first.next] + (Script(more) + rest);
      var log1 := OneRound(hop, m, rc, first, Script(more) + rest, log);
      HopRounds(hop, m1, rc1, more, rest, log1);
      FirstUp(hop, m, rounds);
      assert DownCalls(hop, rounds) == [Down(hop, first.down)] + DownCalls(hop, more);
    }
  }

  lemma FirstUp(hop: Hop, m: Message, rounds: seq<Round>)
    requires rounds != [] && forall i :: 0 <= i < |rounds| ==> rounds[i].next.Delivered?
    ensures UpCalls(hop, m, rounds) == [UpCall(hop.own, hop.caller, m)] + UpCalls(hop, AsResponse(rounds[0].next),
            rounds[1..])
  {
  }

  // ---------------------------------------------------------- the chain

  /** A hop at work, with the buffer and the log it happens to have. */
  datatype Work = Work(hop: Hop, first: Message, rc: Message, rounds: seq<Round>, rest: seq<Reply>, log: seq<Call>)

  ghost function Done(w: Work): Run {
    Forward(w.hop.own, w.hop.caller, w.hop.callee, w.first, w.rc, Script(w.rounds) + w.rest, w.log)
  }

  /** What the hop passes up and down, in order. */
  ghost function Upward(w: Work): seq<Call> {
    var n, ups := |Ups(w.log)|, Ups(Done(w).log);
    if n <= |ups| then ups[n..] else []
  }

  ghost function Downward(w: Work): seq<Call> {
    var n, downs := |Downs(w.log)|, Downs(Done(w).log);
    if n <= |downs| then downs[n..] else []
  }

  ghost predicate Working(w: Work) { Regular(w.hop, w.first, w.rc, w.rounds) }

  /** The callee's message of round t. */
  ghost function From(w: Work, t: nat): Message
    requires t < |w.rounds|
  {
    if t == 0 then w.first
    else if w.rounds[t - 1].next.Delivered? then AsResponse(w.rounds[t - 1].next) else NO_MESSAGE
  }

  /** A call as its receiver gets it. */
  function Received(c: Call): Reply {
    if c.Wait? then Empty else Delivered(false, c.source, c.destination, c.body)
  }

  /** The lower hop gets what the upper one passes down, and the other way. */
  ghost predicate Wired(upper: Work, lower: Work) {
    && upper.hop.callee == lower.hop.own && lower.hop.caller == upper.hop.own && |upper.rounds| == |lower.rounds|
    && |Upward(lower)| == |lower.rounds| && |Downward(upper)| == |upper.rounds|
    && forall t {:trigger upper.rounds[t]} {:trigger lower.rounds[t]} :: 0 <= t < |upper.rounds| ==>
         !Upward(lower)[t].Wait? && From(upper, t) == AsResponse(Received(Upward(lower)[t]))
         && lower.rounds[t].down == Received(Downward(upper)[t])
  }

  /** ws[0] is next to the root; each hop's callee is the next one. */
  ghost predicate Chain(ws: seq<Work>) {
    && ws != [] && (forall i :: 0 <= i < |ws| ==> Working(ws[i]) && |ws[i].rounds| == |ws[0].rounds|)
    && (forall i: nat :: i + 1 < |ws| ==> Wired(ws[i], ws[i + 1]))
  }

  lemma Passes(w: Work, t: nat)
    requires Working(w) && t < |w.rounds|
    ensures |Upward(w)| == |Downward(w)| == |w.rounds| && Answer(w.hop.caller, w.rounds[t].down)
    ensures Upward(w)[t] == UpCall(w.hop.own, w.hop.caller, From(w, t)) && RcRequest(From(w, t))
    ensures Downward(w)[t] == Down(w.hop, w.rounds[t].down)
    ensures Done(w).res == OK && !IsRc(Done(w).msg)
  {
    hide Forward, Regular, Narrow, Ups, Downs, RcRequest, IsRc, Answer;
    HopRounds(w.hop, w.first, w.rc, w.rounds, w.rest, w.log);
    AllDelivered(w.hop, w.first, w.rc, w.rounds);
    assert From(w, t) == Asked(w.first, w.rounds, t);
  }

  /** Requests reach the root unchanged. */
  lemma {:induction false} UpUnchanged(ws: seq<Work>, i: nat, t: nat)
    requires Chain(ws) && i < |ws| && t < |ws[0].rounds|
    ensures |Upward(ws[i])| == |ws[0].rounds|
    ensures Upward(ws[i])[t] == SendResp(false, ws[i].hop.own, ws[i].hop.caller, Narrow(From(ws[|ws| - 1], t).body))
    decreases |ws| - i
  {
    hide Working, Upward, Downward, From, Narrow;
    Passes(ws[i], t);
    if i + 1 < |ws| {
      UpUnchanged(ws, i + 1, t);
      assert Wired(ws[i], ws[i + 1]);
      assert ws[i].rounds[t] == ws[i].rounds[t];
      NarrowTwice(From(ws[|ws| - 1], t).body);
    }
  }

  /** Answers reach the RC root unchanged. */
  lemma {:induction false} DownUnchanged(ws: seq<Work>, i: nat, t: nat)
    requires Chain(ws) && i < |ws| && t < |ws[0].rounds|
    ensures ws[0].rounds[t].down.Delivered? && |Downward(ws[i])| == |ws[0].rounds|
    ensures Downward(ws[i])[t] == SendReq(false, ws[i].hop.own, ws[i].hop.callee, Narrow(ws[0].rounds[t].down.body))
  {
    hide Working, Upward, Downward, From, Narrow;
    Passes(ws[i], t);
    Passes(ws[0], t);
    if i > 0 {
      DownUnchanged(ws, i - 1, t);
      assert Wired(ws[i - 1], ws[i - 1 + 1]);
      assert ws[i].rounds[t] == ws[i].rounds[t];
      NarrowTwice(ws[0].rounds[t].down.body);
    }
  }

  /** Transparency: over a chain of any length, in any number of remote calls,
      with any other messages in between, the root gets the words of each request
      and the far end the words of each answer, in order, from the neighbour it
      expects them from; every hop then ends with its callee's response. */
  lemma Transparent(ws: seq<Work>, t: nat)
    requires Chain(ws) && t < |ws[0].rounds|
    ensures |Upward(ws[0])| == |Downward(ws[|ws| - 1])| == |ws[0].rounds| && ws[0].rounds[t].down.Delivered?
    ensures var up, req := Upward(ws[0])[t], From(ws[|ws| - 1], t);
            up == SendResp(false, ws[0].hop.own, ws[0].hop.caller, Narrow(req.body)) && up.body[..5] == req.body[..5]
              && IsUp(up)
    ensures var down, rep, hop := Downward(ws[|ws| - 1])[t], ws[0].rounds[t].down, ws[|ws| - 1].hop;
            down == SendReq(false, hop.own, hop.callee, Narrow(rep.body)) && down.body[..5] == rep.body[..5]
    ensures forall i :: 0 <= i < |ws| ==> Done(ws[i]).res == OK && !IsRc(Done(ws[i]).msg)
  {
    hide Working, Upward, Downward, From, Done, IsRc;
    UpUnchanged(ws, 0, t);
    DownUnchanged(ws, |ws| - 1, t);
    Passes(ws[|ws| - 1], t);
    RequestWord(From(ws[|ws| - 1], t));
    forall i | 0 <= i < |ws| ensures Done(ws[i]).res == OK && !IsRc(Done(ws[i]).msg) { Passes(ws[i], t); }
  }

  lemma RequestWord(m: Message)
    requires RcRequest(m)
    ensures RC_BIT <= Narrow(m.body)[0] < RC_BIT + ERROR_BIT
  {
  }

  /** Hop i of a chain in which one call with these words is made. */
  function PlainHop(i: nat, req: Body, rep: Body): Work
    requires i < 0xFFF0
  {
    Work(Hop(i + 1, i, i + 2), Message(Kind.Response, false, i + 2, i + 1, Narrow(req)), NO_MESSAGE,
      [Round([], Delivered(false, i, i + 1, Narrow(rep)), Delivered(false, i + 2, i + 1, NO_ARGS))], [], [])
  }

  lemma PlainWorking(i: nat, req: Body, rep: Body)
    requires i < 0xFFF0 && RC_BIT <= req[0] < RC_BIT + ERROR_BIT && RC_BIT <= rep[0]
    ensures Working(PlainHop(i, req, rep))
  {
    var w := PlainHop(i, req, rep);
    NarrowTwice(req);
    NarrowTwice(rep);
    assert w.rounds[1..] == [];
    assert !IsRc(AsResponse(w.rounds[0].next));
  }

  /** Chains of all lengths exist, for all words of a request and its answer. */
  lemma ChainExists(n: nat, req: Body, rep: Body) returns (ws: seq<Work>)
    requires 0 < n < 0xFFF0 && RC_BIT <= req[0] < RC_BIT + ERROR_BIT && RC_BIT <= rep[0]
    ensures Chain(ws) && |ws| == n && |ws[0].rounds| == 1
    ensures From(ws[n - 1], 0).body == Narrow(req) && ws[0].rounds[0].down == Delivered(false, 0, 1, Narrow(rep))
  {
    hide Working, Upward, Downward, Narrow;
    ws := seq(n, i requires 0 <= i < n => PlainHop(i, req, rep));
    forall i | 0 <= i < n ensures Working(ws[i]) { PlainWorking(i, req, rep); }
    forall i: nat | i + 1 < n ensures Wired(ws[i], ws[i + 1]) {
      Passes(ws[i], 0);
      Passes(ws[i + 1], 0);
      NarrowTwice(req);
      NarrowTwice(rep);
    }
  }

  // ------------------------------------------------------- from end to end

  /** The call sp_msg_send_rc_req makes first. */
  function RcCall(req: SpMsg): Call {
    SendResp(false, req.source, req.destination,
      [0x8000_0000 + req.body[0] % 0x8000_0000] + req.body[1..5] + [0, 0, 0, 0, 0])
  }

  lemma RcCallIs(req: SpMsg)
    ensures RcCall(req) == SendResp(false, req.source, req.destination, Narrow(WithRc(Pack(req).body)))
  {
    HighBit(req.body[0]);
  }

  /** A request sp_msg_send_rc_req takes, without the error bit. */
  predicate Sendable(req: SpMsg) {
    req.body[0] / ERROR_BIT % 2 == 0 && (!req.wide ==> req.body[0] < ERROR_BIT)
  }

  /** A call with the words of the request and the RC bit. */
  ghost predicate Carries(c: Call, req: SpMsg) {
    c.SendResp? && c.body[0] == 0x8000_0000 + req.body[0] % 0x8000_0000 && c.body[1..5] == req.body[1..5]
  }

  /** What sp_msg_send_rc_req makes of the answer: its words, or the error it
      carries. */
  ghost predicate Returned(answer: Reply, res: SpResult, resp: SpMsg) {
    answer.Delivered? &&
    if answer.body[0] / 0x4000_0000 % 2 == 1 && answer.body[1] != 0 then
      res.SpFfa? && (res.code - answer.body[1]) % 0x1_0000_0000 == 0
    else res.SpOk? && resp.body[..5] == answer.body[..5]
  }

  /** sp_msg_send_rc_req at the far end: the request goes out once, and the
      caller's answer comes back, whatever other messages come first. */
  method RemoteCall(e: Endpoint, req: SpMsg, ghost noise: seq<Reply>, ghost down: Reply, ghost rest: seq<Reply>)
    returns (res: SpResult, resp: SpMsg)
    requires e.Quiescent() && Sendable(req) && Noise(e.callerId, NO_MESSAGE, noise) && Answer(e.callerId, down)
    requires e.script == noise + [down] + rest
    modifies e
    ensures e.Quiescent() && e.callerId == old(e.callerId) && e.script == rest
    ensures Ups(e.log) == Ups(old(e.log)) + [RcCall(req)] && Returned(down, res, resp)
  {
    hide Noise, DenyRequests, Ups, Downs, OnlyErrors, Pack, WithRc, Svc, RcCall;
    ghost var log := e.log;
    RcCallIs(req);
    NoiseDenied(RcCall(req), e.callerId, NO_MESSAGE, noise, down, rest, log);
    res, resp := e.SendRcReq(req);
    SendableWord(req);
    Snoc(log, RcCall(req));
    ErrorsAside(log + [RcCall(req)], e.log, BUSY);
    NarrowTwice(down.body);
  }

  lemma SendableWord(req: SpMsg)
    requires Sendable(req)
    ensures IsUp(RcCall(req))
  {
  }

  /** What the far end gets: in each round other messages and then an answer. */
  ghost function Feed(noises: seq<seq<Reply>>, downs: seq<Call>): seq<Reply>
    requires |noises| == |downs|
  {
    if downs == [] then [] else noises[0] + [Received(downs[0])] + Feed(noises[1..], downs[1..])
  }

  /** The far end is wired to the last hop of the chain. */
  ghost predicate FarEnd(e: Endpoint, reqs: seq<SpMsg>, ws: seq<Work>, noises: seq<seq<Reply>>)
    reads e
    requires ws != []
  {
    var last := ws[|ws| - 1];
    && e.Quiescent() && e.callerId == last.hop.own && |reqs| == |noises| == |last.rounds|
    && |Downward(last)| == |noises| && e.script == Feed(noises, Downward(last))
    && (forall t :: 0 <= t < |reqs| ==> Sendable(reqs[t]) && From(last, t) == AsResponse(Received(RcCall(reqs[t]))))
    && (forall t :: 0 <= t < |noises| ==> Noise(e.callerId, NO_MESSAGE, noises[t]))
  }

  /** One call of sp_msg_send_rc_req after the other. */
  method CallEach(e: Endpoint, reqs: seq<SpMsg>, ghost noises: seq<seq<Reply>>, ghost downs: seq<Call>)
    returns (results: seq<SpResult>, resps: seq<SpMsg>)
    requires |reqs| == |noises| == |downs| && e.Quiescent() && e.script == Feed(noises, downs)
    requires forall t :: 0 <= t < |reqs| ==> Sendable(reqs[t])
    requires forall t :: 0 <= t < |noises| ==> Noise(e.callerId, NO_MESSAGE, noises[t])
    requires forall t :: 0 <= t < |downs| ==> Answer(e.callerId, Received(downs[t]))
    modifies e
    ensures e.Quiescent() && e.callerId == old(e.callerId) && |results| == |resps| == |reqs|
    ensures forall t :: 0 <= t < |reqs| ==> Returned(Received(downs[t]), results[t], resps[t])
    ensures Ups(e.log) == Ups(old(e.log)) + seq(|reqs|, t requires 0 <= t < |reqs| => RcCall(reqs[t]))
  {
    hide Noise, Returned, Ups, RcCall, Sendable;
    assert noises[0..] == noises && downs[0..] == downs;
    results, resps := [], [];
    for t := 0 to |reqs|
      invariant e.Quiescent() && e.callerId == old(e.callerId) && |results| == |resps| == t
      invariant e.script == Feed(noises[t..], downs[t..])
      invariant forall i :: 0 <= i < t ==> Returned(Received(downs[i]), results[i], resps[i])
      invariant Ups(e.log) == Ups(old(e.log)) + seq(t, i requires 0 <= i < t => RcCall(reqs[i]))
    {
      assert noises[t..][1..] == noises[t + 1..] && downs[t..][1..] == downs[t + 1..];
      var res, resp := RemoteCall(e, reqs[t], noises[t], Received(downs[t]), Feed(noises[t + 1..], downs[t + 1..]));
      results, resps := results + [res], resps + [resp];
    }
  }

  /** Any number of remote calls from end to end: the root gets the words of each
      sp_msg_send_rc_req, with the RC bit set, and each returns the words, or the
      error, of the root's answer. */
  method RemoteCalls(e: Endpoint, reqs: seq<SpMsg>, ghost ws: seq<Work>, ghost noises: seq<seq<Reply>>)
    returns (results: seq<SpResult>, resps: seq<SpMsg>)
    requires ws != [] && Chain(ws) && FarEnd(e, reqs, ws, noises)
    modifies e
    ensures e.Quiescent() && |results| == |resps| == |reqs| == |Upward(ws[0])| == |ws[0].rounds|
    ensures forall t :: 0 <= t < |reqs| ==> Carries(Upward(ws[0])[t], reqs[t])
    ensures forall t :: 0 <= t < |reqs| ==> Returned(ws[0].rounds[t].down, results[t], resps[t])
    ensures Ups(e.log) == Ups(old(e.log)) + seq(|reqs|, t requires 0 <= t < |reqs| => RcCall(reqs[t]))
  {
    hide Noise, Returned, Ups, Upward, Downward, From, Chain, Carries, Working, RcCall, Sendable, Received;
    ChainEnds(ws);
    ghost var downs := Downward(ws[|ws| - 1]);
    forall t | 0 <= t < |reqs| ensures Answer(e.callerId, Received(downs[t])) { FarRound(ws, t); }
    results, resps := CallEach(e, reqs, noises, downs);
    forall t | 0 <= t < |reqs|
      ensures Carries(Upward(ws[0])[t], reqs[t])
      ensures Returned(ws[0].rounds[t].down, results[t], resps[t])
    {
      RootWords(ws, t, reqs[t]);
      FarRound(ws, t);
      ReturnedSame(ws[0].rounds[t].down, Received(downs[t]), results[t], resps[t]);
    }
  }

  lemma ChainEnds(ws: seq<Work>)
    requires Chain(ws)
    ensures |ws[|ws| - 1].rounds| == |ws[0].rounds| == |Upward(ws[0])|
  {
    hide Regular, Upward, Downward, Wired;
    if ws[0].rounds == [] { NoRounds(ws[0]); } else { Passes(ws[0], 0); }
  }

  lemma FarRound(ws: seq<Work>, t: nat)
    requires Chain(ws) && t < |ws[0].rounds|
    ensures ws[0].rounds[t].down.Delivered? && |Downward(ws[|ws| - 1])| == |ws[0].rounds|
    ensures var down := Received(Downward(ws[|ws| - 1])[t]);
            Answer(ws[|ws| - 1].hop.own, down) && down.body == Narrow(ws[0].rounds[t].down.body)
  {
    hide Working, Upward, Downward, From, Done;
    Transparent(ws, t);
    Passes(ws[0], t);
    NarrowTwice(ws[0].rounds[t].down.body);
  }

  lemma ReturnedSame(rep: Reply, down: Reply, res: SpResult, resp: SpMsg)
    requires rep.Delivered? && down.Delivered? && down.body == Narrow(rep.body) && Returned(down, res, resp)
    ensures Returned(rep, res, resp)
  {
    NarrowTwice(rep.body);
  }

  lemma RootWords(ws: seq<Work>, t: nat, req: SpMsg)
    requires Chain(ws) && t < |ws[0].rounds| && t < |ws[|ws| - 1].rounds| && Sendable(req)
    requires From(ws[|ws| - 1], t) == AsResponse(Received(RcCall(req)))
    ensures |Upward(ws[0])| == |ws[0].rounds| && Carries(Upward(ws[0])[t], req)
  {
    hide Chain, Upward, Downward, From, Done, WithRc, Pack;
    Transparent(ws, t);
  }

  lemma NoRounds(w: Work)
    requires Working(w) && w.rounds == []
    ensures Upward(w) == []
  {
    hide Forward, Ups, Downs, IsRc;
    HopRounds(w.hop, w.first, w.rc, w.rounds, w.rest, w.log);
  }
}
