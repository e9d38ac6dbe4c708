/** FF-A direct messages and the routing extension's rules on them
    (components/messaging/ffa/libsp/ffa_direct_msg_routing_extension.c). The
    supervisor call is a script of replies: each call takes the next one, and
    once they run out every call fails. */
module Routing {
  import opened Words

  /** The argument union: ten 32-bit words, of which a 32-bit message uses the
      first five. */
  type Body = b: seq<uint32> | |b| == 10 witness [0, 0, 0, 0, 0, 0, 0, 0, 0, 0]

  const NO_ARGS: Body := [0, 0, 0, 0, 0, 0, 0, 0, 0, 0]

  datatype Kind = Unset | Request | Response | Success

  datatype Message = Message(kind: Kind, wide: bool, source: uint16, destination: uint16, body: Body)

  const NO_MESSAGE := Message(Unset, false, 0, 0, NO_ARGS)

  datatype Call =
    | Wait
    | SendReq(wide: bool, source: uint16, destination: uint16, body: Body)
    | SendResp(wide: bool, source: uint16, destination: uint16, body: Body)

  /** What the supervisor call comes back with: an error code, a message, or
      success without a message. */
  datatype Reply =
    | Error(code: int32)
    | Delivered(wide: bool, source: uint16, destination: uint16, body: Body)
    | Empty

  const OK: int32 := 0
  const BUSY: int32 := -4
  const DENIED: int32 := -6
  const ABORTED: int32 := -8

  const SP_ID_INVALID: uint16 := 0xFFFF

  const RC_BIT := 0x8000_0000
  const ERROR_BIT := 0x4000_0000

  predicate IsRc(m: Message) { m.body[0] >= RC_BIT }
  predicate IsError(m: Message) { m.body[0] / ERROR_BIT % 2 == 1 }
  /** args32[0] & FFA_ROUTING_EXT_BITS_MASK is not zero. */
  predicate RoutingBits(m: Message) { m.body[0] >= ERROR_BIT }

  /** The second word as a signed result. */
  function ErrorCode(m: Message): (code: int32)
    ensures (code - m.body[1]) % 0x1_0000_0000 == 0
  {
    var w: int := m.body[1];
    if w >= 0x8000_0000 then w - 0x1_0000_0000 else w
  }

  /** A result as an unsigned word. */
  function AsWord(code: int32): (w: uint32)
    ensures (w - code) % 0x1_0000_0000 == 0
  {
    code % 0x1_0000_0000
  }

  function ErrorBody(code: int32): Body {
    [RC_BIT + ERROR_BIT, AsWord(code), 0, 0, 0, 0, 0, 0, 0, 0]
  }

  /** The five words a 32-bit call passes on. */
  function Narrow(b: Body): Body { b[..5] + [0, 0, 0, 0, 0] }

  /** The message a reply fills in, for a call that gets it. */
  function Fill(call: Call, reply: Reply, m: Message): Message {
    match reply
    case Error(_) => m
    case Empty => NO_MESSAGE.(kind := Success)
    case Delivered(wide, s, d, b) =>
      if call.SendReq? then Message(Response, call.wide, s, d, if call.wide then b else Narrow(b))
      else Message(Request, wide, s, d, if wide then b else Narrow(b))
  }

  /** Where a run stands: the result, the message buffer, the replies left and
      the calls made. */
  datatype Run = Run(res: int32, msg: Message, script: seq<Reply>, log: seq<Call>)

  function Svc(call: Call, m: Message, script: seq<Reply>, log: seq<Call>): Run {
    if script == [] then Run(ABORTED, m, [], log + [call])
    else
      var reply := script[0];
      Run(if reply.Error? then reply.code else OK, Fill(call, reply, m), script[1..], log + [call])
  }

  /** send_rc_error_message: an error reply to the sender of m. */
  function ErrorReply(m: Message, code: int32): Call {
    SendResp(false, m.destination, m.source, ErrorBody(code))
  }

  /** deny_unexpected_rc_responses */
  function DenyResponses(m: Message, script: seq<Reply>, log: seq<Call>): Run
    decreases |script|
  {
    if !IsRc(m) then Run(OK, m, script, log)
    else
      var r := Svc(ErrorReply(m, DENIED), m, script, log);
      if r.res != OK then r else DenyResponses(r.msg, r.script, r.log)
  }

  /** What deny_unexpected_requests lets through. */
  predicate Expected(m: Message, caller: uint16) { IsRc(m) && m.source == caller }

  /** deny_unexpected_requests */
  function DenyRequests(caller: uint16, m: Message, script: seq<Reply>, log: seq<Call>): Run
    decreases |script|
  {
    if Expected(m, caller) then Run(OK, m, script, log)
    else
      var r := Svc(ErrorReply(m, BUSY), m, script, log);
      if r.res == OK then DenyRequests(caller, r.msg, r.script, r.log)
      else
        var w := Svc(Wait, r.msg, r.script, r.log);
        if w.res != OK then w else DenyRequests(caller, w.msg, w.script, w.log)
  }

  /** The loop of req_post_hook at an endpoint with these ids; rc is the buffer
      for messages from the caller. */
  function Forward(own: uint16, caller: uint16, callee: uint16, m: Message, rc: Message, script: seq<Reply>,
                   log: seq<Call>): Run
    decreases |script|
  {
    if !IsRc(m) then Run(OK, m, script, log)
    else if IsError(m) then Run(ErrorCode(m), m, script, log)
    else
      var up := Svc(SendResp(false, own, caller, Narrow(m.body)), rc, script, log);
      var d := if up.res != OK then up else DenyRequests(caller, up.msg, up.script, up.log);
      DenyShorter(caller, up);
      var body := if d.res != OK then ErrorBody(d.res) else Narrow(d.msg.body);
      var down := Svc(SendReq(false, own, callee, body), m, d.script, d.log);
      if down.res != OK then down else Forward(own, caller, callee, down.msg, d.msg, down.script, down.log)
  }

  lemma DenyShorter(caller: uint16, r: Run)
    ensures |DenyRequests(caller, r.msg, r.script, r.log).script| <= |r.script|
    decreases |r.script|
  {
    if !Expected(r.msg, caller) {
      var e := Svc(ErrorReply(r.msg, BUSY), r.msg, r.script, r.log);
      if e.res == OK {
        DenyShorter(caller, e);
      } else {
        var w := Svc(Wait, e.msg, e.script, e.log);
        if w.res == OK { DenyShorter(caller, w); }
      }
    }
  }

  // ---------------------------------------------------- what is let through

  lemma {:induction false} DenyRequestsOk(caller: uint16, m: Message, script: seq<Reply>, log: seq<Call>)
    ensures var r := DenyRequests(caller, m, script, log);
            r.res == OK ==> r.msg.body[0] >= 0x8000_0000 && r.msg.source == caller
    decreases |script|
  {
    if !Expected(m, caller) {
      var e := Svc(ErrorReply(m, BUSY), m, script, log);
      if e.res == OK {
        DenyRequestsOk(caller, e.msg, e.script, e.log);
      } else {
        var w := Svc(Wait, e.msg, e.script, e.log);
        if w.res == OK { DenyRequestsOk(caller, w.msg, w.script, w.log); }
      }
    }
  }

  lemma {:induction false} DenyResponsesOk(m: Message, script: seq<Reply>, log: seq<Call>)
    ensures var r := DenyResponses(m, script, log); r.res == OK ==> r.msg.body[0] < 0x8000_0000
    decreases |script|
  {
    if IsRc(m) {
      var e := Svc(ErrorReply(m, DENIED), m, script, log);
      if e.res == OK { DenyResponsesOk(e.msg, e.script, e.log); }
    }
  }

  /** A result sent as an error message reads back as the same result, and a
      failure never reads back as success. */
  lemma ErrorRoundTrip(code: int32, m: Message)
    requires m.body == ErrorBody(code)
    ensures ErrorCode(m) == code && IsRc(m) && IsError(m) && (code != OK ==> m.body[1] != 0)
  {
    if code >= 0 { assert AsWord(code) == code; } else { assert AsWord(code) == code + 0x1_0000_0000; }
  }
}
