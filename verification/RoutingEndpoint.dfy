/** One endpoint of the routing extension and the messaging calls that drive it
    (components/messaging/ffa/libsp/ffa_direct_msg_routing_extension.c and
    components/messaging/ffa/libsp/sp_messaging.c). */
module RoutingEndpoint {
  import opened Words
  import opened Routing
  import opened RoutingScripts

  datatype State = Idle | Root | Leaf | RcRoot | Internal | Forwarding

  datatype SpMsg = SpMsg(source: uint16, destination: uint16, wide: bool, body: Body)

  const NO_SP_MSG := SpMsg(0, 0, false, NO_ARGS)

  datatype SpResult = SpOk | SpInvalidParameters | SpFfa(code: int32)

  /** pack_ffa_direct_msg */
  function Pack(m: SpMsg): Message {
    Message(Unset, m.wide, m.source, m.destination, if m.wide then m.body else Narrow(m.body))
  }

  /** unpack_ffa_direct_msg */
  function Unpack(m: Message): SpMsg {
    if m.kind.Request? || m.kind.Response? then SpMsg(m.source, m.destination, m.wide,
      if m.wide then m.body else Narrow(m.body))
    else NO_SP_MSG
  }

  /** args32[0] &= ~FFA_ROUTING_EXT_BITS_MASK, for 32-bit messages. */
  function Stripped(m: Message): Message {
    if m.wide then m else m.(body := m.body[0 := m.body[0] % ERROR_BIT])
  }

  /** What the hooks before a call turn down: a 32-bit message with a routing
      bit. */
  predicate Rejected(m: SpMsg) { !m.wide && m.body[0] >= 0x4000_0000 }

  /** args32[0] |= FFA_ROUTING_EXT_RC_BIT */
  function WithRc(b: Body): Body {
    if b[0] >= RC_BIT then b else b[0 := b[0] + RC_BIT]
  }

  /** The words of a direct message as they are sent: five of them, or all ten
      of a 64-bit message. */
  ghost predicate SameWords(sent: Body, words: Body, wide: bool) {
    if wide then sent == words
    else sent[..5] == words[..5] && forall i :: 5 <= i < 10 ==> sent[i] == 0
  }

  /** The first call of an RC request: the words of the request, with the RC bit
      in the first one. */
  ghost predicate IsRcCall(c: Call, req: SpMsg) {
    && c.SendResp? && !c.wide && c.source == req.source && c.destination == req.destination
    && c.body[0] == 0x8000_0000 + req.body[0] % 0x8000_0000 && c.body[1..5] == req.body[1..5]
    && forall i :: 5 <= i < 10 ==> c.body[i] == 0
  }

  /** What a reply delivers to the partition as a response. */
  ghost predicate Brings(reply: Reply, msg: SpMsg) {
    if reply.Delivered? then
      msg.source == reply.source && msg.destination == reply.destination && SameWords(msg.body, reply.body, msg.wide)
    else msg == SpMsg(0, 0, false, NO_ARGS)
  }

  /** And as a request: in the first word of a 32-bit message the two routing
      bits are cleared. */
  ghost predicate BringsRequest(reply: Reply, msg: SpMsg) {
    if reply.Delivered? && !reply.wide then
      && msg.source == reply.source && msg.destination == reply.destination && !msg.wide
      && msg.body[0] == reply.body[0] % 0x4000_0000 && msg.body[1..5] == reply.body[1..5]
      && forall i :: 5 <= i < 10 ==> msg.body[i] == 0
    else Brings(reply, msg) && msg.wide == reply.Delivered?
  }

  class Endpoint {
    var state: State
    var ownId: uint16
    var callerId: uint16
    var calleeId: uint16
    var script: seq<Reply>
    var log: seq<Call>

    constructor (script: seq<Reply>)
      ensures Quiescent() && this.script == script && log == [] && state.Idle?
    {
      state, ownId, callerId, calleeId := Idle, SP_ID_INVALID, SP_ID_INVALID, SP_ID_INVALID;
      this.script, log := script, [];
    }

    /** What holds whenever no messaging call is in progress. */
    ghost predicate Quiescent()
      reads this
    {
      (state.Idle? || state.Leaf?) && calleeId == SP_ID_INVALID && (state.Idle? ==> callerId == SP_ID_INVALID)
    }

    /** A supervisor call. */
    method Monitor(call: Call, m: Message) returns (res: int32, m': Message)
      modifies `script, `log
      ensures Run(res, m', script, log) == Svc(call, m, old(script), old(log))
    {
      log := log + [call];
      if script == [] {
        return ABORTED, m;
      }
      var reply := script[0];
      script := script[1..];
      res := if reply.Error? then reply.code else OK;
      m' := Fill(call, reply, m);
    }

    method DenyUnexpectedRcResponses(req0: Message) returns (res: int32, req: Message)
      modifies `script, `log
      ensures Run(res, req, script, log) == DenyResponses(req0, old(script), old(log))
    {
      req := req0;
      while IsRc(req)
        invariant DenyResponses(req, script, log) == DenyResponses(req0, old(script), old(log))
        decreases |script|
      {
        res, req := Monitor(ErrorReply(req, DENIED), req);
        if res != OK {
          return;
        }
      }
      res := OK;
    }

    method DenyUnexpectedRequests(req0: Message) returns (res: int32, req: Message)
      modifies `script, `log
      ensures Run(res, req, script, log) == DenyRequests(callerId, req0, old(script), old(log))
    {
      req := req0;
      while !IsRc(req) || req.source != callerId
        invariant DenyRequests(callerId, req, script, log) == DenyRequests(callerId, req0, old(script), old(log))
        decreases |script|
      {
        res, req := Monitor(ErrorReply(req, BUSY), req);
        if res != OK {
          res, req := Monitor(Wait, req);
          if res != OK {
            return;
          }
        }
      }
      res := OK;
    }

    /** request_received_hook: a request makes this endpoint a leaf. */
    method RequestReceived(req0: Message) returns (res: int32, req: Message)
      requires Quiescent()
      modifies this
      ensures Quiescent()
      ensures var d := DenyResponses(req0, old(script), old(log));
              && script == d.script && log == d.log && res == d.res
              && (res != OK ==> state == old(state) && ownId == old(ownId) && callerId == old(callerId))
              && (res == OK ==> state.Leaf? && ownId == d.msg.destination && callerId == d.msg.source)
              && (res == OK ==> req == Stripped(d.msg))
      ensures res == OK && !req.wide ==> !RoutingBits(req)
    {
      res, req := DenyUnexpectedRcResponses(req0);
      if res != OK {
        return;
      }
      state, ownId, callerId, calleeId := Leaf, req.destination, req.source, SP_ID_INVALID;
      req := Stripped(req);
    }

    /** req_post_hook: forward RC messages up and their answers down until the
        callee's real response arrives. */
    method ReqPostHook(resp0: Message) returns (res: int32, resp: Message)
      modifies `script, `log, `state, `calleeId
      ensures Run(res, resp, script, log) == Forward(ownId, callerId, old(calleeId), resp0, NO_MESSAGE, old(script),
              old(log))
      ensures state.Leaf? && calleeId == SP_ID_INVALID
    {
      res, resp := OK, resp0;
      var rcResp := NO_MESSAGE;
      ghost var goal := Forward(ownId, callerId, calleeId, resp0, NO_MESSAGE, script, log);
      while IsRc(resp)
        invariant calleeId == old(calleeId)
        invariant Forward(ownId, callerId, calleeId, resp, rcResp, script, log) == goal && res == OK
        decreases |script|
      {
        if IsError(resp) {
          res := ErrorCode(resp);
          break;
        }
        state := Forwarding;
        res, rcResp := Monitor(SendResp(false, ownId, callerId, Narrow(resp.body)), rcResp);
        ghost var up := Run(res, rcResp, script, log);
        DenyShorter(callerId, up);
        if res == OK {
          res, rcResp := DenyUnexpectedRequests(rcResp);
        }
        if res == OK {
          state := Internal;
          res, resp := Monitor(SendReq(false, ownId, calleeId, Narrow(rcResp.body)), resp);
        } else {
          res, resp := Monitor(SendReq(false, ownId, calleeId, ErrorBody(res)), resp);
        }
        if res != OK {
          break;
        }
      }
      state := Leaf;
      calleeId := SP_ID_INVALID;
    }

    /** sp_msg_wait */
    method MsgWait() returns (res: SpResult, msg: SpMsg)
      requires Quiescent()
      modifies this
      ensures Quiescent()
      ensures !res.SpOk? ==> msg == NO_SP_MSG && state == old(state) && callerId == old(callerId)
      ensures res.SpOk? ==> state.Leaf? && (!msg.wide ==> msg.body[0] < ERROR_BIT)
      ensures res.SpOk? ==> |script| < |old(script)| && BringsRequest(LastTaken(old(script), script), msg)
      ensures res.SpOk? ==> callerId == msg.source && ownId == msg.destination
      ensures var r := Svc(Wait, NO_MESSAGE, old(script), old(log));
              if r.res != OK then res == SpFfa(r.res) && log == r.log && script == r.script
              else
                var d := DenyResponses(r.msg, r.script, r.log);
                && log == d.log && script == d.script
                && if d.res != OK then res == SpFfa(d.res) else res.SpOk? && msg == Unpack(Stripped(d.msg))
    {
      RequestWords(Wait, script, log);
      var r, m := Monitor(Wait, NO_MESSAGE);
      if r != OK {
        return SpFfa(r), NO_SP_MSG;
      }
      r, m := RequestReceived(m);
      if r != OK {
        return SpFfa(r), NO_SP_MSG;
      }
      return SpOk, Unpack(m);
    }

    /** sp_msg_send_direct_req */
    method SendDirectReq(req: SpMsg) returns (res: SpResult, resp: SpMsg)
      requires Quiescent()
      modifies this
      ensures Quiescent() && ownId == old(ownId) && callerId == old(callerId)
      ensures !res.SpOk? ==> resp == NO_SP_MSG
      ensures Rejected(req) ==> res.SpInvalidParameters? && state == old(state)
      ensures Rejected(req) ==> log == old(log) && script == old(script)
      ensures !Rejected(req) ==> |old(log)| < |log| && log[..|old(log)|] == old(log)
      ensures !Rejected(req) ==>
        (var first := log[|old(log)|];
         && first.SendReq? && first.wide == req.wide && first.source == req.source
         && first.destination == req.destination && SameWords(first.body, req.body, req.wide))
      ensures res.SpOk? ==> |script| < |old(script)| && Brings(LastTaken(old(script), script), resp)
      ensures !Rejected(req) ==>
        (var call := SendReq(req.wide, req.source, req.destination, Pack(req).body);
         var r := Svc(call, NO_MESSAGE, old(script), old(log));
         if r.res != OK then res == SpFfa(r.res) && log == r.log && script == r.script && state.Leaf?
         else
           var f := Forward(ownId, callerId, req.destination, r.msg, NO_MESSAGE, r.script, r.log);
           && log == f.log && script == f.script && state.Leaf?
           && if f.res != OK then res == SpFfa(f.res) else res.SpOk? && resp == Unpack(f.msg))
    {
      var m := Pack(req);
      if !m.wide && RoutingBits(m) {
        return SpInvalidParameters, NO_SP_MSG;
      }
      state, calleeId := Internal, m.destination;
      PackWords(req);
      ResponseWords(SendReq(req.wide, m.source, m.destination, m.body), ownId, callerId, script, log);
      var r, answer := Monitor(SendReq(req.wide, m.source, m.destination, m.body), NO_MESSAGE);
      if r != OK {
        state, calleeId := Leaf, SP_ID_INVALID;
        return SpFfa(r), NO_SP_MSG;
      }
      r, answer := ReqPostHook(answer);
      if r != OK {
        return SpFfa(r), NO_SP_MSG;
      }
      return SpOk, Unpack(answer);
    }

    /** sp_msg_send_direct_resp */
    method SendDirectResp(resp: SpMsg) returns (res: SpResult, req: SpMsg)
      requires Quiescent()
      modifies this
      ensures Quiescent()
      ensures !res.SpOk? ==> req == NO_SP_MSG
      ensures res.SpOk? ==> state.Leaf? && (!req.wide ==> req.body[0] < ERROR_BIT)
      ensures res.SpOk? ==> |script| < |old(script)| && BringsRequest(LastTaken(old(script), script), req)
      ensures res.SpOk? ==> callerId == req.source && ownId == req.destination
      ensures !Rejected(resp) ==> |old(log)| < |log| && log[..|old(log)|] == old(log)
      ensures !Rejected(resp) ==>
        (var first := log[|old(log)|];
         && first.SendResp? && first.wide == resp.wide && first.source == resp.source
         && first.destination == resp.destination && SameWords(first.body, resp.body, resp.wide))
      ensures Rejected(resp) ==> res.SpInvalidParameters? && state == old(state)
      ensures Rejected(resp) ==> log == old(log) && script == old(script)
      ensures !Rejected(resp) ==>
        (var call := SendResp(resp.wide, resp.source, resp.destination, Pack(resp).body);
         var r := Svc(call, NO_MESSAGE, old(script), old(log));
         if r.res != OK then res == SpFfa(r.res) && log == r.log && script == r.script && state.Idle?
         else
           var d := DenyResponses(r.msg, r.script, r.log);
           && log == d.log && script == d.script
           && if d.res != OK then res == SpFfa(d.res) && state.Idle? else res.SpOk? && req == Unpack(Stripped(d.msg)))
    {
      var m := Pack(resp);
      if !m.wide && RoutingBits(m) {
        return SpInvalidParameters, NO_SP_MSG;
      }
      state, callerId, calleeId := Idle, SP_ID_INVALID, SP_ID_INVALID;
      PackWords(resp);
      RequestWords(SendResp(resp.wide, m.source, m.destination, m.body), script, log);
      var r, next := Monitor(SendResp(resp.wide, m.source, m.destination, m.body), NO_MESSAGE);
      if r != OK {
        return SpFfa(r), NO_SP_MSG;
      }
      r, next := RequestReceived(next);
      if r != OK {
        return SpFfa(r), NO_SP_MSG;
      }
      return SpOk, Unpack(next);
    }

    /** sp_msg_send_rc_req */
    method SendRcReq(req: SpMsg) returns (res: SpResult, resp: SpMsg)
      requires Quiescent()
      modifies this
      ensures Quiescent() && ownId == old(ownId) && callerId == old(callerId)
      ensures !res.SpOk? ==> resp == NO_SP_MSG
      ensures Rejected(req) ==> res.SpInvalidParameters? && state == old(state)
      ensures Rejected(req) ==> log == old(log) && script == old(script)
      ensures !Rejected(req) ==> |old(log)| < |log| && log[..|old(log)|] == old(log)
                                 && IsRcCall(log[|old(log)|], req)
      ensures res.SpOk? && resp.body[0] >= 0x8000_0000 && resp.source == callerId ==>
        |script| < |old(script)| && LastTaken(old(script), script).Delivered?
        && Brings(LastTaken(old(script), script), resp)
      ensures !Rejected(req) ==>
        (var call := SendResp(false, req.source, req.destination, Narrow(WithRc(Pack(req).body)));
         var r := Svc(call, NO_MESSAGE, old(script), old(log));
         if r.res != OK then res == SpFfa(r.res) && log == r.log && script == r.script && state.Leaf?
         else
           var d := RcOutcome(callerId, r.msg, r.script, r.log);
           && log == d.log && script == d.script && state.Leaf?
           && if d.res != OK then res == SpFfa(d.res) else res.SpOk? && resp == Unpack(d.msg))
    {
      var m := Pack(req);
      if !m.wide && RoutingBits(m) {
        return SpInvalidParameters, NO_SP_MSG;
      }
      m := m.(body := WithRc(m.body));
      state := RcRoot;
      RcWords(req);
      RcResponseWords(SendResp(false, m.source, m.destination, Narrow(m.body)), callerId, script, log);
      var r, answer := Monitor(SendResp(false, m.source, m.destination, Narrow(m.body)), NO_MESSAGE);
      if r != OK {
        state := Leaf;
        return SpFfa(r), NO_SP_MSG;
      }
      r, answer := DenyUnexpectedRequests(answer);
      state := Leaf;
      if IsError(answer) {
        r := ErrorCode(answer);
      }
      if r != OK {
        return SpFfa(r), NO_SP_MSG;
      }
      return SpOk, Unpack(answer);
    }
  }

  lemma PackWords(m: SpMsg)
    ensures SameWords(Pack(m).body, m.body, m.wide)
  {
  }

  lemma RequestBrought(call: Call, reply: Reply)
    requires !call.SendReq?
    ensures var m := Fill(call, reply, NO_MESSAGE); var u := Unpack(Stripped(m));
            BringsRequest(reply, u) && u.source == m.source && u.destination == m.destination
  {
  }

  lemma ResponseBrought(call: Call, reply: Reply)
    requires call.SendReq?
    ensures Brings(reply, Unpack(Fill(call, reply, NO_MESSAGE)))
  {
  }

  /** What request_received_hook makes of the replies, after a call. */
  lemma RequestWords(first: Call, script: seq<Reply>, log: seq<Call>)
    requires !first.SendReq?
    ensures var r := Svc(first, NO_MESSAGE, script, log); var d := DenyResponses(r.msg, r.script, r.log);
            && r.log == log + [first] && r.log <= d.log
            && (r.res == OK && d.res == OK ==>
                  var u := Unpack(Stripped(d.msg));
                  && |d.script| < |script| && BringsRequest(LastTaken(script, d.script), u)
                  && u.source == d.msg.source && u.destination == d.msg.destination)
  {
    hide Fill, DenyResponses, Unpack, Stripped, BringsRequest;
    var r := Svc(first, NO_MESSAGE, script, log);
    var d := DenyResponses(r.msg, r.script, r.log);
    DenyResponsesSends(r.msg, r.script, r.log);
    if r.res == OK && d.res == OK {
      ResponsesLast(r.msg, r.script, r.log);
      RequestBrought(first, script[0]);
      if |d.script| < |r.script| { RequestBrought(Wait, LastTaken(r.script, d.script)); }
    }
  }

  /** And what req_post_hook does. */
  lemma ResponseWords(first: Call, own: uint16, caller: uint16, script: seq<Reply>, log: seq<Call>)
    requires first.SendReq?
    ensures var r := Svc(first, NO_MESSAGE, script, log);
            var f := Forward(own, caller, first.destination, r.msg, NO_MESSAGE, r.script, r.log);
            && r.log == log + [first] && r.log <= f.log
            && (r.res == OK && f.res == OK ==>
                  |f.script| < |script| && Brings(LastTaken(script, f.script), Unpack(f.msg)))
  {
    hide Fill, Forward, Unpack, Brings;
    var r := Svc(first, NO_MESSAGE, script, log);
    var f := Forward(own, caller, first.destination, r.msg, NO_MESSAGE, r.script, r.log);
    ForwardShorter(own, caller, first.destination, r.msg, NO_MESSAGE, r.script, r.log);
    if r.res == OK && f.res == OK {
      ForwardLast(own, caller, first.destination, r.msg, NO_MESSAGE, r.script, r.log);
      ResponseBrought(first, script[0]);
      if |f.script| < |r.script| { ResponseBrought(SendReq(false, 0, 0, NO_ARGS), LastTaken(r.script, f.script)); }
    }
  }

  /** rc_req_post_hook */
  function RcOutcome(caller: uint16, m: Message, script: seq<Reply>, log: seq<Call>): Run {
    var d := DenyRequests(caller, m, script, log);
    if IsError(d.msg) then d.(res := ErrorCode(d.msg)) else d
  }

  lemma RcWords(req: SpMsg)
    ensures IsRcCall(SendResp(false, req.source, req.destination, Narrow(WithRc(Pack(req).body))), req)
  {
    HighBit(req.body[0]);
  }

  lemma HighBit(w: uint32)
    ensures 0x8000_0000 + w % 0x8000_0000 == if w >= 0x8000_0000 then w else w + 0x8000_0000
  {
  }

  lemma RcResponseWords(first: Call, caller: uint16, script: seq<Reply>, log: seq<Call>)
    requires first.SendResp?
    ensures var r := Svc(first, NO_MESSAGE, script, log); var d := RcOutcome(caller, r.msg, r.script, r.log);
            var u := Unpack(d.msg);
            && r.log == log + [first] && r.log <= d.log
            && (r.res == OK && d.res == OK && u.body[0] >= 0x8000_0000 && u.source == caller ==>
                  |d.script| < |script| && LastTaken(script, d.script).Delivered?
                  && Brings(LastTaken(script, d.script), u))
  {
    hide DenyRequests, Fill;
    var r := Svc(first, NO_MESSAGE, script, log);
    var d := DenyRequests(caller, r.msg, r.script, r.log);
    DenyRequestsSends(caller, r.msg, r.script, r.log);
    var u := Unpack(d.msg);
    if r.res == OK && u.body[0] >= 0x8000_0000 && u.source == caller {
      ExpectedOk(caller, r.msg, r.script, r.log);
      RequestsLast(caller, r.msg, r.script, r.log);
      RcBrought(first, script[0]);
      if |d.script| < |r.script| { RcBrought(Wait, LastTaken(r.script, d.script)); }
    }
  }

  lemma RcBrought(call: Call, reply: Reply)
    requires !call.SendReq?
    ensures var u := Unpack(Fill(call, reply, NO_MESSAGE));
            Brings(reply, u) && (u.body[0] >= 0x8000_0000 ==> reply.Delivered?)
  {
  }

  /** An RC request that succeeds got an RC message from the caller, except
      exactly when no message held before two calls in a row fail is one, and
      the message held then has the error bit and the code for success. */
  lemma RcOutcomeExact(caller: uint16, m: Message, script: seq<Reply>, log: seq<Call>)
    ensures var r := RcOutcome(caller, m, script, log); var last := Held(m, script, Stop(script));
            r.res == OK && !Expected(r.msg, caller) <==>
            && NoneExpected(caller, m, script, 0, Stop(script))
            && last.body[0] / 0x4000_0000 % 2 == 1 && last.body[1] == 0
  {
    hide DenyRequests, Held, Stop;
    DenyExact(caller, m, script, log);
    var last := Held(m, script, Stop(script));
    var n := Arrival(caller, m, script);
    if n <= Stop(script) {
      assert Expected(Held(m, script, n), caller);
    } else {
      assert !Expected(last, caller);
      assert ErrorCode(last) == OK <==> last.body[1] == 0;
    }
  }

  /** The same of the whole script of the RC request. */
  lemma RcCallExact(caller: uint16, call: Call, script: seq<Reply>, log: seq<Call>)
    requires call.SendResp?
    ensures var r := Svc(call, NO_MESSAGE, script, log);
            var o := if r.res != OK then r else RcOutcome(caller, r.msg, r.script, r.log);
            o.res == OK && !Expected(o.msg, caller) <==>
            && !Fails(script, 0)
            && NoneExpected(caller, NO_MESSAGE, script, 1, Stop(script[1..]) + 1)
            && (var last := Held(NO_MESSAGE, script, Stop(script[1..]) + 1);
                last.body[0] / 0x4000_0000 % 2 == 1 && last.body[1] == 0)
  {
    hide RcOutcome, Held, Stop, Fill, Expected, IsError, NoneExpected;
    if Fails(script, 0) {
      FailKeeps(call, NO_MESSAGE, script);
    } else {
      var m := Fill(Wait, script[0], NO_MESSAGE);
      SameFill(call, script[0], NO_MESSAGE);
      assert Svc(call, NO_MESSAGE, script, log) == Run(OK, m, script[1..], log + [call]);
      RcOutcomeExact(caller, m, script[1..], log + [call]);
      HeldShift(NO_MESSAGE, script, Stop(script[1..]));
      NoneShift(caller, NO_MESSAGE, script, Stop(script[1..]));
    }
  }

  /** A message with just the error bit, of any sender. */
  const JUST_ERROR := Message(Request, false, 5, 1, [ERROR_BIT, 0, 0, 0, 0, 0, 0, 0, 0, 0])

  lemma JustErrorAccepted(caller: uint16, log: seq<Call>)
    ensures var r := RcOutcome(caller, JUST_ERROR, [], log); r.res == OK && r.msg == JUST_ERROR
  {
    hide DenyRequests;
    assert Held(JUST_ERROR, [], 0) == JUST_ERROR && Stop([]) == 0;
    DenyExact(caller, JUST_ERROR, [], log);
    NoArrival(caller, JUST_ERROR, []);
  }

  /** Such a case exists for every caller: a message with just the error bit,
      and two failing calls after it. */
  method UnexpectedAccepted(e: Endpoint, req: SpMsg) returns (res: SpResult, resp: SpMsg)
    requires e.Quiescent() && !Rejected(req)
    requires e.script == [Delivered(false, JUST_ERROR.source, JUST_ERROR.destination, JUST_ERROR.body)]
    modifies e
    ensures res.SpOk? && resp == SpMsg(JUST_ERROR.source, JUST_ERROR.destination, false, JUST_ERROR.body)
    ensures e.callerId == old(e.callerId) && resp.body[0] < RC_BIT
  {
    hide RcOutcome, WithRc, Pack;
    assert Narrow(JUST_ERROR.body) == JUST_ERROR.body;
    ghost var first := SendResp(false, req.source, req.destination, Narrow(WithRc(Pack(req).body)));
    ghost var r := Svc(first, NO_MESSAGE, e.script, e.log);
    assert r == Run(OK, JUST_ERROR, [], e.log + [first]);
    JustErrorAccepted(e.callerId, r.log);
    res, resp := e.SendRcReq(req);
  }

  /** A direct request can succeed with an RC message for a response: the callee
      answers with an error message that has the code for success. */
  method WrongResponse(e: Endpoint, req: SpMsg) returns (res: SpResult, resp: SpMsg)
    requires e.Quiescent() && !req.wide && req.body[0] < ERROR_BIT
    requires e.script == [Delivered(false, 3, 1, ErrorBody(OK))]
    modifies e
    ensures res.SpOk? && resp == SpMsg(3, 1, false, ErrorBody(OK)) && resp.body[0] >= RC_BIT
  {
    assert Narrow(ErrorBody(OK)) == ErrorBody(OK);
    res, resp := e.SendDirectReq(req);
  }

  datatype Api = ApiWait | ApiReq(msg: SpMsg) | ApiResp(msg: SpMsg) | ApiRc(msg: SpMsg)

  /** A 32-bit request that a call delivered has no routing bit set. */
  predicate Clean(call: Api, res: SpResult, msg: SpMsg) {
    (call.ApiWait? || call.ApiResp?) && res.SpOk? && !msg.wide ==> msg.body[0] < ERROR_BIT
  }

  /** A 64-bit message that makes this endpoint send an error message with the
      code for success. */
  predicate Marking(call: Api) {
    match call
    case ApiWait => false
    case ApiReq(m) => m.wide && WrongBody(m.body)
    case ApiResp(m) => m.wide && WrongBody(m.body)
    case ApiRc(m) => m.wide && m.body[0] / ERROR_BIT % 2 == 1 && m.body[1] == 0
  }

  /** One messaging call. If no reply brings an error message with the code for
      success, one is sent exactly for a 64-bit message that looks like it. */
  method Perform(e: Endpoint, call: Api) returns (res: SpResult, msg: SpMsg)
    requires e.Quiescent()
    modifies e
    ensures e.Quiescent() && Clean(call, res, msg)
    ensures Innocent(old(e.script)) ==> (NoMarks(old(e.log), e.log) <==> !Marking(call))
  {
    hide Svc, Forward, DenyResponses, RcOutcome, Unpack, Stripped, Pack, WithRc, Narrow, Innocent, NoMarks, WrongBody;
    ghost var script, log, caller := e.script, e.log, e.callerId;
    match call {
      case ApiWait =>
        res, msg := e.MsgWait();
        if Innocent(script) { HookSends(Wait, script, log); }
      case ApiReq(m) =>
        res, msg := e.SendDirectReq(m);
        if Innocent(script) { ReqSends(m, e.ownId, caller, script, log); }
      case ApiResp(m) =>
        res, msg := e.SendDirectResp(m);
        if Innocent(script) { RespSends(m, script, log); }
      case ApiRc(m) =>
        res, msg := e.SendRcReq(m);
        if Innocent(script) { RcSends(m, caller, script, log); }
    }
  }

  /** Any sequence of messaging calls, against any replies: the endpoint is
      quiescent after each one, and no 32-bit request that reaches the
      partition has a routing bit set. */
  method RunCalls(e: Endpoint, calls: seq<Api>) returns (results: seq<SpResult>, msgs: seq<SpMsg>)
    requires e.Quiescent()
    modifies e
    ensures e.Quiescent() && |results| == |msgs| == |calls|
    ensures forall k :: 0 <= k < |calls| ==> Clean(calls[k], results[k], msgs[k])
  {
    results, msgs := [], [];
    for i := 0 to |calls|
      invariant e.Quiescent() && |results| == |msgs| == i
      invariant forall k :: 0 <= k < i ==> Clean(calls[k], results[k], msgs[k])
    {
      var res, msg := Perform(e, calls[i]);
      results, msgs := results + [res], msgs + [msg];
    }
  }

  /** The first call of an API function and whatever follows. */
  lemma FirstMarks(log: seq<Call>, first: Call, log': seq<Call>)
    requires NoMarks(log + [first], log')
    ensures NoMarks(log, log') <==> !Marks(first)
  {
    assert log'[|log|] == first;
    forall i | |log| < i < |log'| ensures !Marks(log'[i]) {
    }
  }

  lemma AfterFirst(first: Call, script: seq<Reply>, log: seq<Call>)
    requires Innocent(script)
    ensures var r := Svc(first, NO_MESSAGE, script, log); r.log == log + [first] && Innocent(r.script) && !Wrong(r.msg)
  {
  }

  /** A call whose message goes to request_received_hook. */
  lemma HookSends(first: Call, script: seq<Reply>, log: seq<Call>)
    requires Innocent(script)
    ensures var r := Svc(first, NO_MESSAGE, script, log);
            NoMarks(log, if r.res != OK then r.log else DenyResponses(r.msg, r.script, r.log).log) <==> !Marks(first)
  {
    hide Svc, DenyResponses, Marks;
    var r := Svc(first, NO_MESSAGE, script, log);
    AfterFirst(first, script, log);
    DenyResponsesSends(r.msg, r.script, r.log);
    var log' := DenyResponses(r.msg, r.script, r.log).log;
    ErrorsUnmarked(r.log, log', DENIED);
    FirstMarks(log, first, if r.res != OK then r.log else log');
  }

  lemma RespSends(m: SpMsg, script: seq<Reply>, log: seq<Call>)
    requires Innocent(script)
    ensures NoMarks(log, log)
    ensures Rejected(m) ==> !Marking(ApiResp(m))
    ensures !Rejected(m) ==>
      (var r := Svc(SendResp(m.wide, m.source, m.destination, Pack(m).body), NO_MESSAGE, script, log);
       NoMarks(log, if r.res != OK then r.log else DenyResponses(r.msg, r.script, r.log).log) <==> !Marking(ApiResp(m)))
  {
    HookSends(SendResp(m.wide, m.source, m.destination, Pack(m).body), script, log);
  }

  lemma ReqSends(m: SpMsg, own: uint16, caller: uint16, script: seq<Reply>, log: seq<Call>)
    requires Innocent(script)
    ensures NoMarks(log, log)
    ensures Rejected(m) ==> !Marking(ApiReq(m))
    ensures !Rejected(m) ==>
      (var r := Svc(SendReq(m.wide, m.source, m.destination, Pack(m).body), NO_MESSAGE, script, log);
       var f := Forward(own, caller, m.destination, r.msg, NO_MESSAGE, r.script, r.log);
       var log' := if r.res != OK then r.log else f.log;
       NoMarks(log, log') <==> !Marking(ApiReq(m)))
  {
    hide Forward, Svc;
    var first := SendReq(m.wide, m.source, m.destination, Pack(m).body);
    var r := Svc(first, NO_MESSAGE, script, log);
    AfterFirst(first, script, log);
    ForwardSends(own, caller, m.destination, r.msg, NO_MESSAGE, r.script, r.log);
    FirstMarks(log, first,
      if r.res != OK then r.log else Forward(own, caller, m.destination, r.msg, NO_MESSAGE, r.script, r.log).log);
  }

  lemma RcSends(m: SpMsg, caller: uint16, script: seq<Reply>, log: seq<Call>)
    requires Innocent(script)
    ensures NoMarks(log, log)
    ensures Rejected(m) ==> !Marking(ApiRc(m))
    ensures !Rejected(m) ==>
      (var r := Svc(SendResp(false, m.source, m.destination, Narrow(WithRc(Pack(m).body))), NO_MESSAGE, script, log);
       NoMarks(log, if r.res != OK then r.log else RcOutcome(caller, r.msg, r.script, r.log).log) <==>
         !Marking(ApiRc(m)))
  {
    hide DenyRequests, Svc;
    var first := SendResp(false, m.source, m.destination, Narrow(WithRc(Pack(m).body)));
    var r := Svc(first, NO_MESSAGE, script, log);
    AfterFirst(first, script, log);
    DenyRequestsSends(caller, r.msg, r.script, r.log);
    var log' := DenyRequests(caller, r.msg, r.script, r.log).log;
    ErrorsUnmarked(r.log, log', BUSY);
    FirstMarks(log, first, if r.res != OK then r.log else log');
  }
}
