/** What the loops of the routing extension do, said of the replies they get
    and not of the loops: which message is held after how many replies, where a
    loop stops, which messages are turned down and what a callee answers
    (components/messaging/ffa/libsp/ffa_direct_msg_routing_extension.c, lines
    55 to 185). */
module RoutingScripts {
  import opened Words
  import opened Routing

  /** The call that gets reply i fails. Replies past the end do. */
  predicate Fails(script: seq<Reply>, i: nat) {
    i >= |script| || (script[i].Error? && script[i].code != OK)
  }

  /** The message buffer after j replies to responses and waits. */
  function Held(m: Message, script: seq<Reply>, j: nat): Message {
    if j == 0 then m
    else if j > |script| then Held(m, script, j - 1)
    else Fill(Wait, script[j - 1], Held(m, script, j - 1))
  }

  lemma {:induction false} HeldShift(m: Message, script: seq<Reply>, j: nat)
    requires script != []
    ensures Held(m, script, j + 1) == Held(Fill(Wait, script[0], m), script[1..], j)
  {
    hide Fill;
    if j > 0 { HeldShift(m, script, j - 1); }
  }

  /** The first of two failing calls in a row. */
  function Stop(script: seq<Reply>): nat {
    if Fails(script, 0) && Fails(script, 1) then 0 else 1 + Stop(script[1..])
  }

  lemma {:induction false} StopIsFirst(script: seq<Reply>)
    ensures Stop(script) <= |script| && Fails(script, Stop(script)) && Fails(script, Stop(script) + 1)
    ensures forall i: nat :: i < Stop(script) ==> !(Fails(script, i) && Fails(script, i + 1))
  {
    if !(Fails(script, 0) && Fails(script, 1)) {
      StopIsFirst(script[1..]);
      forall i: nat | i < Stop(script)
        ensures !(Fails(script, i) && Fails(script, i + 1))
      {
        if i > 0 { assert !(Fails(script[1..], i - 1) && Fails(script[1..], i)); }
      }
    }
  }

  /** After how many replies the first expected message is held, up to the stop;
      one more than the stop if there is none. */
  ghost function Arrival(caller: uint16, m: Message, script: seq<Reply>): (n: nat)
    ensures n <= Stop(script) + 1 && (n <= Stop(script) ==> Expected(Held(m, script, n), caller))
    ensures forall j: nat :: j < n ==> !Expected(Held(m, script, j), caller)
  {
    ArrivalFrom(caller, m, script, 0)
  }

  ghost function ArrivalFrom(caller: uint16, m: Message, script: seq<Reply>, j: nat): (n: nat)
    requires j <= Stop(script) + 1 && forall i: nat :: i < j ==> !Expected(Held(m, script, i), caller)
    ensures n <= Stop(script) + 1 && (n <= Stop(script) ==> Expected(Held(m, script, n), caller))
    ensures forall i: nat :: i < n ==> !Expected(Held(m, script, i), caller)
    decreases Stop(script) + 1 - j
  {
    if j > Stop(script) || Expected(Held(m, script, j), caller) then j else ArrivalFrom(caller, m, script, j + 1)
  }

  lemma ArrivalNow(caller: uint16, m: Message, script: seq<Reply>)
    requires Expected(m, caller)
    ensures Arrival(caller, m, script) == 0
  {
    assert Expected(Held(m, script, 0), caller);
  }

  /** One reply later, unless the loop stops. */
  lemma ArrivalLater(caller: uint16, m: Message, script: seq<Reply>)
    requires !Expected(m, caller) && script != [] && !(Fails(script, 0) && Fails(script, 1))
    ensures Arrival(caller, m, script) == 1 + Arrival(caller, Fill(Wait, script[0], m), script[1..])
    ensures Stop(script) == 1 + Stop(script[1..])
  {
    hide Fill, Expected, Fails;
    var m1, rest := Fill(Wait, script[0], m), script[1..];
    var n, k := Arrival(caller, m, script), Arrival(caller, m1, rest);
    assert Held(m, script, 0) == m;
    assert n > 0;
    HeldShift(m, script, n - 1);
    HeldShift(m, script, k);
  }

  /** No message held after lo to hi replies is expected. */
  ghost predicate NoneExpected(caller: uint16, m: Message, script: seq<Reply>, lo: nat, hi: nat) {
    forall j: nat :: lo <= j <= hi ==> !Expected(Held(m, script, j), caller)
  }

  lemma NoneShift(caller: uint16, m: Message, script: seq<Reply>, hi: nat)
    requires script != []
    ensures NoneExpected(caller, m, script, 1, hi + 1) <==> NoneExpected(caller, Fill(Wait, script[0], m), script[1..],
            0, hi)
  {
    hide Fill, Expected, Held;
    var m1, rest := Fill(Wait, script[0], m), script[1..];
    if NoneExpected(caller, m1, rest, 0, hi) {
      forall j: nat | 1 <= j <= hi + 1 ensures !Expected(Held(m, script, j), caller) {
        HeldShift(m, script, j - 1);
      }
    }
    if NoneExpected(caller, m, script, 1, hi + 1) {
      forall j: nat | j <= hi ensures !Expected(Held(m1, rest, j), caller) {
        HeldShift(m, script, j);
      }
    }
  }

  /** The result of the call that gets reply i. */
  function ResultOf(script: seq<Reply>, i: nat): int32 {
    if i >= |script| then ABORTED else if script[i].Error? then script[i].code else OK
  }

  function Rest(script: seq<Reply>, k: nat): seq<Reply> { if k <= |script| then script[k..] else [] }

  datatype Ending = Ending(res: int32, msg: Message, taken: nat)

  /** How deny_unexpected_requests ends: with the first expected message, or
      with the failure of the second of two failing calls in a row. */
  ghost function End(caller: uint16, m: Message, script: seq<Reply>): Ending {
    var n, stop := Arrival(caller, m, script), Stop(script);
    if n <= stop then Ending(OK, Held(m, script, n), n)
    else Ending(ResultOf(script, stop + 1), Held(m, script, stop), stop + 2)
  }

  lemma EndLater(caller: uint16, m: Message, script: seq<Reply>)
    requires !Expected(m, caller) && script != [] && !(Fails(script, 0) && Fails(script, 1))
    ensures var e := End(caller, Fill(Wait, script[0], m), script[1..]);
            End(caller, m, script) == e.(taken := 1 + e.taken)
              && Rest(script, 1 + e.taken) == Rest(script[1..], e.taken)
  {
    hide Fill, Expected, Fails, Held, Arrival, Stop;
    ArrivalLater(caller, m, script);
    var m1, rest := Fill(Wait, script[0], m), script[1..];
    HeldShift(m, script, Arrival(caller, m1, rest));
    HeldShift(m, script, Stop(rest));
  }

  /** deny_unexpected_requests by the replies alone. */
  lemma {:induction false} DenyExact(caller: uint16, m: Message, script: seq<Reply>, log: seq<Call>)
    ensures var d := DenyRequests(caller, m, script, log); var e := End(caller, m, script);
            && d == Run(e.res, e.msg, Rest(script, e.taken), d.log)
            && (d.res == OK <==> Arrival(caller, m, script) <= Stop(script))
    decreases |script|
  {
    hide Fill, Held, Arrival, Expected, Rest;
    StopFails(script);
    RestAll(script);
    if Expected(m, caller) {
      ArrivalNow(caller, m, script);
      HeldNone(m, script);
    } else if Fails(script, 0) && Fails(script, 1) {
      HeldNone(m, script);
      NoArrival(caller, m, script);
      FailKeeps(ErrorReply(m, BUSY), m, script);
      FailKeeps(Wait, m, if script == [] then [] else script[1..]);
    } else {
      EndLater(caller, m, script);
      var m1, rest := Fill(Wait, script[0], m), script[1..];
      var e := Svc(ErrorReply(m, BUSY), m, script, log);
      SameFill(ErrorReply(m, BUSY), script[0], m);
      if Fails(script, 0) {
        FailKeeps(ErrorReply(m, BUSY), m, script);
        EndLater(caller, m1, rest);
        var w := Svc(Wait, e.msg, e.script, e.log);
        DenyExact(caller, w.msg, w.script, w.log);
        ArrivalLater(caller, m, script);
        ArrivalLater(caller, m1, rest);
      } else {
        DenyExact(caller, e.msg, e.script, e.log);
        ArrivalLater(caller, m, script);
      }
    }
  }

  /** Only success ends with an expected message. */
  lemma ExpectedOk(caller: uint16, m: Message, script: seq<Reply>, log: seq<Call>)
    requires Expected(DenyRequests(caller, m, script, log).msg, caller)
    ensures DenyRequests(caller, m, script, log).res == OK
  {
    hide DenyRequests, Held, Arrival, Expected;
    DenyExact(caller, m, script, log);
    var n, stop := Arrival(caller, m, script), Stop(script);
    assert n > stop ==> !Expected(Held(m, script, stop), caller);
  }

  lemma StopFails(script: seq<Reply>)
    ensures ResultOf(script, Stop(script) + 1) != OK
  {
    StopIsFirst(script);
  }

  lemma RestAll(script: seq<Reply>)
    ensures Rest(script, 0) == script && (|script| <= 2 ==> Rest(script, 2) == [])
            && (script != [] ==> Rest(script, 1) == script[1..])
    ensures |script| >= 2 ==> Rest(script, 2) == script[1..][1..]
  {
  }

  lemma HeldNone(m: Message, script: seq<Reply>)
    ensures Held(m, script, 0) == m
  {
  }

  lemma SameFill(call: Call, reply: Reply, m: Message)
    requires !call.SendReq?
    ensures Fill(call, reply, m) == Fill(Wait, reply, m)
  {
  }

  lemma FailKeeps(call: Call, m: Message, script: seq<Reply>)
    requires Fails(script, 0)
    ensures ResultOf(script, 0) != OK && (script != [] ==> Fill(call, script[0], m) == m)
  {
  }

  lemma NoArrival(caller: uint16, m: Message, script: seq<Reply>)
    requires !Expected(m, caller) && Stop(script) == 0
    ensures Arrival(caller, m, script) == 1
  {
    assert Held(m, script, 0) == m;
  }

  // ------------------------------------------------- unexpected responses

  /** The word of the message held after i replies has the remote-call bit. */
  ghost predicate RcHeld(m: Message, script: seq<Reply>, i: nat) { Held(m, script, i).body[0] >= 0x8000_0000 }

  /** A DENIED error for each of the messages held after 0 to n - 1 replies. */
  ghost function Refusals(m: Message, script: seq<Reply>, n: nat): seq<Call> {
    seq(n, i requires 0 <= i < n =>
      SendResp(false, Held(m, script, i).destination, Held(m, script, i).source,
               [0xC000_0000, 0xFFFF_FFFA, 0, 0, 0, 0, 0, 0, 0, 0]))
  }

  lemma RefusalsShift(m: Message, script: seq<Reply>, n: nat)
    requires script != []
    ensures Refusals(m, script, n + 1)
         == [SendResp(false, m.destination, m.source, [0xC000_0000, 0xFFFF_FFFA, 0, 0, 0, 0, 0, 0, 0, 0])]
            + Refusals(Fill(Wait, script[0], m), script[1..], n)
  {
    hide Fill, Held;
    HeldNone(m, script);
    forall i: nat | i < n ensures Held(m, script, i + 1) == Held(Fill(Wait, script[0], m), script[1..], i) {
      HeldShift(m, script, i);
    }
  }

  /** A run that ends after k replies, with the first message held that is no RC
      message, or with the first call that fails; each RC message held before got
      one DENIED error, and nothing else was sent. */
  ghost predicate Refused(m: Message, script: seq<Reply>, log: seq<Call>, k: nat, d: Run) {
    && k <= |script| && (forall i: nat :: i < k ==> RcHeld(m, script, i) && !Fails(script, i))
    && if RcHeld(m, script, k) then
         Fails(script, k) && d.script == Rest(script, k + 1) && d.log == log + Refusals(m, script, k + 1)
         && d.res == ResultOf(script, k) && d.msg == Held(m, script, k)
       else
         d.script == script[k..] && d.log == log + Refusals(m, script, k)
         && d.res == OK && d.msg == Held(m, script, k)
  }

  /** deny_unexpected_rc_responses by the replies alone. */
  lemma {:induction false} DenyResponsesExact(m: Message, script: seq<Reply>, log: seq<Call>) returns (k: nat)
    ensures Refused(m, script, log, k, DenyResponses(m, script, log))
    decreases |script|
  {
    hide Fill, Refused, ErrorReply, IsRc;
    var first := ErrorReply(m, DENIED);
    k := 0;
    if !IsRc(m) {
      NotRefused(m, script, log);
    } else if Fails(script, 0) {
      RefusedOnce(m, script, log);
    } else {
      ReplyIsResp(m, DENIED);
      SameFill(first, script[0], m);
      k := DenyResponsesExact(Fill(Wait, script[0], m), script[1..], log + [first]);
      RefusedLater(m, script, log, k, DenyResponses(m, script, log));
      k := k + 1;
    }
  }

  lemma NotRefused(m: Message, script: seq<Reply>, log: seq<Call>)
    requires !IsRc(m)
    ensures Refused(m, script, log, 0, Run(OK, m, script, log))
  {
    FirstRefusal(m, script);
    hide Held, Refusals;
  }

  lemma RefusedOnce(m: Message, script: seq<Reply>, log: seq<Call>)
    requires IsRc(m) && Fails(script, 0)
    ensures Refused(m, script, log, 0, Svc(ErrorReply(m, DENIED), m, script, log))
    ensures Svc(ErrorReply(m, DENIED), m, script, log).res != OK
  {
    hide Held, Refusals, Fill, ErrorReply;
    FirstRefusal(m, script);
    FailKeeps(ErrorReply(m, DENIED), m, script);
  }

  lemma RefusedLater(m: Message, script: seq<Reply>, log: seq<Call>, k: nat, d: Run)
    requires IsRc(m) && !Fails(script, 0)
    requires Refused(Fill(Wait, script[0], m), script[1..], log + [ErrorReply(m, DENIED)], k, d)
    ensures Refused(m, script, log, k + 1, d)
  {
    hide Held, Refusals, Fill, ErrorReply, RcHeld, IsRc;
    FirstRefusal(m, script);
    HeldShift(m, script, k);
    RcLater(m, script, k);
    RefusalsShift(m, script, k);
    RefusalsShift(m, script, k + 1);
  }

  lemma FirstRefusal(m: Message, script: seq<Reply>)
    ensures var c := SendResp(false, m.destination, m.source, [0xC000_0000, 0xFFFF_FFFA, 0, 0, 0, 0, 0, 0, 0, 0]);
            ErrorReply(m, DENIED) == c && Refusals(m, script, 0) == [] && Refusals(m, script, 1) == [c]
    ensures Held(m, script, 0) == m && RcHeld(m, script, 0) == IsRc(m)
  {
  }

  lemma RcLater(m: Message, script: seq<Reply>, k: nat)
    requires script != [] && IsRc(m) && !Fails(script, 0)
    requires forall i: nat :: i < k ==> RcHeld(Fill(Wait, script[0], m), script[1..], i) && !Fails(script[1..], i)
    ensures forall i: nat :: i < k + 1 ==> RcHeld(m, script, i) && !Fails(script, i)
    ensures RcHeld(m, script, k + 1) == RcHeld(Fill(Wait, script[0], m), script[1..], k)
    ensures Fails(script, k + 1) == Fails(script[1..], k)
  {
    hide Fill, Held;
    HeldNone(m, script);
    HeldShift(m, script, k);
    forall i: nat | i < k + 1 ensures RcHeld(m, script, i) && !Fails(script, i) {
      if i > 0 {
        HeldShift(m, script, i - 1);
        assert !Fails(script[1..], i - 1);
      }
    }
  }

  /** The reply taken last. */
  ghost function LastTaken(script: seq<Reply>, rest: seq<Reply>): Reply
    requires |rest| < |script|
  {
    script[|script| - |rest| - 1]
  }

  /** A message that ends deny_unexpected_rc_responses with success came with the
      last reply, unless none was taken. */
  lemma ResponsesLast(m: Message, script: seq<Reply>, log: seq<Call>)
    ensures var d := DenyResponses(m, script, log);
            && |d.script| <= |script|
            && (d.res == OK && |d.script| == |script| ==> d.msg == m)
            && (d.res == OK && |d.script| < |script| ==>
                  !LastTaken(script, d.script).Error?
                  && d.msg == Fill(Wait, LastTaken(script, d.script), NO_MESSAGE))
  {
    hide DenyResponses, IsRc;
    var k := DenyResponsesExact(m, script, log);
    HeldNone(m, script);
    if k > 0 && !RcHeld(m, script, k) {
      assert RcHeld(m, script, k - 1);
      assert Held(m, script, k) == Fill(Wait, script[k - 1], Held(m, script, k - 1));
    }
    if RcHeld(m, script, k) { assert ResultOf(script, k) != OK; }
  }

  /** So does the one deny_unexpected_requests ends with. */
  lemma RequestsLast(caller: uint16, m: Message, script: seq<Reply>, log: seq<Call>)
    ensures var d := DenyRequests(caller, m, script, log);
            && |d.script| <= |script|
            && (d.res == OK && |d.script| == |script| ==> d.msg == m)
            && (d.res == OK && |d.script| < |script| ==>
                  LastTaken(script, d.script).Delivered?
                  && d.msg == Fill(Wait, LastTaken(script, d.script), NO_MESSAGE))
  {
    hide DenyRequests, Arrival;
    DenyExact(caller, m, script, log);
    StopIsFirst(script);
    HeldNone(m, script);
    var n := Arrival(caller, m, script);
    if 0 < n <= Stop(script) {
      assert !Expected(Held(m, script, n - 1), caller);
      assert Held(m, script, n) == Fill(Wait, script[n - 1], Held(m, script, n - 1));
      assert Rest(script, n) == script[n..];
    }
  }

  // ------------------------------------------------ who is turned down

  /** m and the messages that the first k replies brought. */
  ghost function Heard(m: Message, script: seq<Reply>, k: nat): (ms: seq<Message>)
    ensures |ms| > 0
  {
    if k == 0 then [m] else Heard(m, script, k - 1) + if Fails(script, k - 1) then [] else [Held(m, script, k)]
  }

  lemma {:induction false} HeardShift(m: Message, script: seq<Reply>, k: nat)
    requires script != []
    ensures var m1 := Fill(Wait, script[0], m);
            Heard(m, script, k + 1) == if Fails(script, 0) then Heard(m, script[1..], k) else [m] + Heard(m1,
              script[1..], k)
  {
    hide Fill, Held;
    HeldShift(m, script, k);
    HeldNone(m, script);
    if Fails(script, 0) { FailKeeps(Wait, m, script); }
    if k > 0 {
      HeardShift(m, script, k - 1);
      assert Fails(script, k) == Fails(script[1..], k - 1);
    } else {
      HeldNone(Fill(Wait, script[0], m), script[1..]);
    }
  }

  /** All messages heard while deny_unexpected_requests runs, but for the
      expected one it ends with. */
  ghost function Denied(caller: uint16, m: Message, script: seq<Reply>): seq<Message> {
    var e := End(caller, m, script);
    var ms := Heard(m, script, e.taken);
    if e.res == OK then ms[..|ms| - 1] else ms
  }

  lemma DeniedLater(caller: uint16, m: Message, script: seq<Reply>)
    requires !Expected(m, caller) && script != [] && !(Fails(script, 0) && Fails(script, 1))
    ensures var d := Denied(caller, Fill(Wait, script[0], m), script[1..]);
            Denied(caller, m, script) == if Fails(script, 0) then d else [m] + d
  {
    hide End, Heard, Fill;
    EndLater(caller, m, script);
    HeardShift(m, script, End(caller, Fill(Wait, script[0], m), script[1..]).taken);
    if Fails(script, 0) { FailKeeps(Wait, m, script); }
  }

  /** The responses among some calls. */
  ghost function Answers(calls: seq<Call>): seq<Call> {
    if calls == [] then []
    else (if calls[0].SendResp? then [calls[0]] else []) + Answers(calls[1..])
  }

  lemma {:induction false} AnswersConcat(a: seq<Call>, b: seq<Call>)
    ensures Answers(a + b) == Answers(a) + Answers(b)
  {
    if a == [] {
      assert a + b == b;
    } else {
      assert (a + b)[1..] == a[1..] + b;
      AnswersConcat(a[1..], b);
    }
  }

  ghost function BusyReplies(ms: seq<Message>): seq<Call> {
    seq(|ms|, i requires 0 <= i < |ms| =>
      SendResp(false, ms[i].destination, ms[i].source, [0xC000_0000, 0xFFFF_FFFC, 0, 0, 0, 0, 0, 0, 0, 0]))
  }

  lemma AnswersSnoc(calls: seq<Call>, c: Call)
    ensures Answers(calls + [c]) == Answers(calls) + if c.SendResp? then [c] else []
  {
    AnswersConcat(calls, [c]);
    assert [c][1..] == [];
  }

  lemma BusyCons(m: Message, ms: seq<Message>)
    ensures BusyReplies([m] + ms) == [ErrorReply(m, BUSY)] + BusyReplies(ms)
  {
    var a, b := BusyReplies([m] + ms), [ErrorReply(m, BUSY)] + BusyReplies(ms);
    forall i | 0 <= i < |a| ensures a[i] == b[i] {
    }
  }

  /** Each message heard but the expected one gets one BUSY reply, in order, and
      nothing else is sent. */
  lemma {:induction false} EachGetsBusy(caller: uint16, m: Message, script: seq<Reply>, log: seq<Call>)
    ensures var r := DenyRequests(caller, m, script, log); var ms := Denied(caller, m, script);
            && Answers(r.log) == Answers(log) + BusyReplies(ms)
            && (forall i :: 0 <= i < |ms| ==> !Expected(ms[i], caller))
    decreases |script|
  {
    hide Answers, BusyReplies, Expected, ErrorReply, Fill, Denied;
    if Expected(m, caller) {
      DeniedNone(caller, m, script);
    } else {
      var e := Svc(ErrorReply(m, BUSY), m, script, log);
      AnswersSnoc(log, ErrorReply(m, BUSY));
      ReplyIsResp(m, BUSY);
      AnswersSnoc(e.log, Wait);
      if Fails(script, 0) && Fails(script, 1) {
        DeniedOne(caller, m, script);
        OneMoreBusy(Answers(log), m, []);
      } else {
        SameFill(ErrorReply(m, BUSY), script[0], m);
        DeniedLater(caller, m, script);
        if Fails(script, 0) {
          FailKeeps(Wait, m, script);
          DeniedLater(caller, m, script[1..]);
          var w := Svc(Wait, e.msg, e.script, e.log);
          EachGetsBusy(caller, w.msg, w.script, w.log);
          OneMoreBusy(Answers(log), m, Denied(caller, w.msg, w.script));
        } else {
          EachGetsBusy(caller, e.msg, e.script, e.log);
          OneMoreBusy(Answers(log), m, Denied(caller, e.msg, e.script));
        }
      }
    }
  }

  lemma DeniedNone(caller: uint16, m: Message, script: seq<Reply>)
    requires Expected(m, caller)
    ensures Denied(caller, m, script) == [] && BusyReplies([]) == []
  {
    ArrivalNow(caller, m, script);
  }

  lemma DeniedOne(caller: uint16, m: Message, script: seq<Reply>)
    requires !Expected(m, caller) && Fails(script, 0) && Fails(script, 1)
    ensures Denied(caller, m, script) == [m] + [] && BusyReplies([]) == []
  {
    NoArrival(caller, m, script);
    StopFails(script);
    assert Heard(m, script, 2) == Heard(m, script, 1) == Heard(m, script, 0) == [m];
  }

  lemma OneMoreBusy(before: seq<Call>, m: Message, ms: seq<Message>)
    ensures before + [ErrorReply(m, BUSY)] + BusyReplies(ms) == before + BusyReplies([m] + ms)
  {
    hide BusyReplies;
    BusyCons(m, ms);
  }

  lemma ReplyIsResp(m: Message, code: int32)
    ensures ErrorReply(m, code).SendResp?
  {
  }

  // ---------------------------------------------- what a callee answers

  ghost predicate RcRequest(m: Message) { IsRc(m) && !IsError(m) }

  /** An error message with the code for success. */
  predicate Wrong(m: Message) { WrongBody(m.body) }
  predicate WrongBody(b: Body) { b[0] >= RC_BIT + ERROR_BIT && b[1] == 0 }

  /** Which reply is the callee's next answer, when a request of it is passed on
      to the caller with this script. */
  ghost function Turn(caller: uint16, rc: Message, script: seq<Reply>): nat {
    if Fails(script, 0) then 1 else 1 + End(caller, Fill(Wait, script[0], rc), script[1..]).taken
  }

  /** The messages of the callee in one direct request, from m on. */
  ghost function Talk(caller: uint16, m: Message, rc: Message, script: seq<Reply>): (ms: seq<Message>)
    ensures |ms| > 0
    decreases |script|
  {
    var k := Turn(caller, rc, script);
    if !RcRequest(m) || Fails(script, k) then [m]
    else [m] + Talk(caller, Fill(SendReq(false, 0, 0, NO_ARGS), script[k], m), Held(rc, script, k), script[k + 1..])
  }

  ghost function Last(ms: seq<Message>): Message
    requires ms != []
  {
    ms[|ms| - 1]
  }

  /** The call that passes a request of the callee on. */
  function UpCall(own: uint16, caller: uint16, m: Message): Call { SendResp(false, own, caller, Narrow(m.body)) }

  /** Where the loop of req_post_hook stands when the callee is to be answered. */
  function Passed(own: uint16, caller: uint16, m: Message, rc: Message, script: seq<Reply>, log: seq<Call>): Run {
    var up := Svc(UpCall(own, caller, m), rc, script, log);
    if up.res != OK then up else DenyRequests(caller, up.msg, up.script, up.log)
  }

  /** The call that answers the callee. */
  function DownCall(own: uint16, callee: uint16, d: Run): Call {
    SendReq(false, own, callee, if d.res != OK then ErrorBody(d.res) else Narrow(d.msg.body))
  }

  /** One round of req_post_hook. */
  lemma ForwardStep(own: uint16, caller: uint16, callee: uint16, m: Message, rc: Message, script: seq<Reply>,
                    log: seq<Call>)
    requires RcRequest(m)
    ensures var d := Passed(own, caller, m, rc, script, log); var r := Forward(own, caller, callee, m, rc, script, log);
            var k := Turn(caller, rc, script); var log1 := d.log + [DownCall(own, callee, d)];
            if Fails(script, k) then r.res == ResultOf(script, k) != OK && r.msg == m && r.log == log1
            else r == Forward(own, caller, callee, Fill(SendReq(false, 0, 0, NO_ARGS), script[k], m),
              Held(rc, script, k), script[k + 1..], log1)
  {
    hide Fill, Held, DenyRequests, Turn, Narrow, ErrorBody, IsRc, IsError;
    var k := Turn(caller, rc, script);
    var up := Svc(UpCall(own, caller, m), rc, script, log);
    DenyShorter(caller, up);
    Turned(UpCall(own, caller, m), caller, rc, script, log);
    var d := Passed(own, caller, m, rc, script, log);
    var call := DownCall(own, callee, d);
    RestAt(script, k);
    if Fails(script, k) {
      FailKeeps(call, m, d.script);
    } else {
      SameAnswer(call, script[k], m);
    }
  }

  lemma RestAt(script: seq<Reply>, k: nat)
    ensures Fails(Rest(script, k), 0) == Fails(script, k)
    ensures !Fails(script, k) ==> Rest(script, k) == [script[k]] + script[k + 1..]
  {
  }

  /** req_post_hook by the replies alone. */
  lemma {:induction false} ForwardExact(own: uint16, caller: uint16, callee: uint16, m: Message, rc: Message,
                                        script: seq<Reply>, log: seq<Call>)
    ensures var r := Forward(own, caller, callee, m, rc, script, log); var ms := Talk(caller, m, rc, script);
            && r.msg == Last(ms) && (r.res == OK <==> r.msg.body[0] < 0x8000_0000 || Wrong(r.msg))
            && (r.msg.body[0] >= 0xC000_0000 ==> r.res == ErrorCode(r.msg))
    decreases |script|
  {
    hide Fill, Held, Turn, Passed, ErrorCode, Wrong, Forward;
    WrongCode(m);
    if RcRequest(m) {
      var k := Turn(caller, rc, script);
      var d := Passed(own, caller, m, rc, script, log);
      ForwardStep(own, caller, callee, m, rc, script, log);
      if !Fails(script, k) {
        ForwardExact(own, caller, callee, Fill(SendReq(false, 0, 0, NO_ARGS), script[k], m), Held(rc, script, k),
          script[k + 1..],
                     d.log + [DownCall(own, callee, d)]);
      }
    } else {
      ForwardEnds(own, caller, callee, m, rc, script, log);
    }
  }

  lemma ForwardEnds(own: uint16, caller: uint16, callee: uint16, m: Message, rc: Message, script: seq<Reply>,
                    log: seq<Call>)
    requires !RcRequest(m)
    ensures Forward(own, caller, callee, m, rc, script, log) == Run(if IsRc(m) then ErrorCode(m) else OK, m, script,
            log)
  {
  }

  /** A response that ends req_post_hook with success came with the last reply,
      unless none was taken. */
  lemma {:induction false} ForwardLast(own: uint16, caller: uint16, callee: uint16, m: Message, rc: Message,
                                       script: seq<Reply>, log: seq<Call>)
    ensures var r := Forward(own, caller, callee, m, rc, script, log);
            && |r.script| <= |script|
            && (r.res == OK && |r.script| == |script| ==> r.msg == m && !RcRequest(m))
            && (r.res == OK && |r.script| < |script| ==>
                  !LastTaken(script, r.script).Error?
                  && r.msg == Fill(SendReq(false, 0, 0, NO_ARGS), LastTaken(script, r.script), NO_MESSAGE))
    decreases |script|
  {
    hide Fill, Held, Turn, Passed, RcRequest, Forward;
    if RcRequest(m) {
      var k := Turn(caller, rc, script);
      var d := Passed(own, caller, m, rc, script, log);
      ForwardStep(own, caller, callee, m, rc, script, log);
      if Fails(script, k) {
        ForwardShorter(own, caller, callee, m, rc, script, log);
      } else {
        var answer := Fill(SendReq(false, 0, 0, NO_ARGS), script[k], m);
        ForwardLast(own, caller, callee, answer, Held(rc, script, k), script[k + 1..],
                    d.log + [DownCall(own, callee, d)]);
        AnswerFrom(script[k], m);
      }
    } else {
      ForwardEnds(own, caller, callee, m, rc, script, log);
    }
  }

  lemma AnswerFrom(reply: Reply, m: Message)
    ensures var call := SendReq(false, 0, 0, NO_ARGS);
            Fill(call, reply, m) == if reply.Error? then m else Fill(call, reply, NO_MESSAGE)
  {
  }

  lemma {:induction false} ForwardShorter(own: uint16, caller: uint16, callee: uint16, m: Message, rc: Message,
                                          script: seq<Reply>, log: seq<Call>)
    ensures var r := Forward(own, caller, callee, m, rc, script, log); |r.script| <= |script| && log <= r.log
    decreases |script|
  {
    hide Fill, Narrow, DenyRequests;
    if IsRc(m) && !IsError(m) {
      var up := Svc(SendResp(false, own, caller, Narrow(m.body)), rc, script, log);
      var d := if up.res != OK then up else DenyRequests(caller, up.msg, up.script, up.log);
      DenyShorter(caller, up);
      DenyRequestsSends(caller, up.msg, up.script, up.log);
      var body := if d.res != OK then ErrorBody(d.res) else Narrow(d.msg.body);
      var down := Svc(SendReq(false, own, callee, body), m, d.script, d.log);
      if down.res == OK { ForwardShorter(own, caller, callee, down.msg, d.msg, down.script, down.log); }
    }
  }

  lemma FailHeld(m: Message, script: seq<Reply>, j: nat)
    requires Fails(script, j)
    ensures Held(m, script, j + 1) == Held(m, script, j)
  {
  }

  /** The message deny_unexpected_requests ends with is the one held then. */
  lemma EndHeld(caller: uint16, m: Message, script: seq<Reply>)
    ensures var e := End(caller, m, script); e.msg == Held(m, script, e.taken)
  {
    hide Fails, Held;
    StopIsFirst(script);
    FailHeld(m, script, Stop(script));
    FailHeld(m, script, Stop(script) + 1);
  }

  /** What is left and held when a request was passed on and its answer, or a
      failure, is there. */
  lemma Turned(call: Call, caller: uint16, rc: Message, script: seq<Reply>, log: seq<Call>)
    requires call.SendResp?
    ensures var up := Svc(call, rc, script, log);
            var d := if up.res != OK then up else DenyRequests(caller, up.msg, up.script, up.log);
            var k := Turn(caller, rc, script); d.script == Rest(script, k) && d.msg == Held(rc, script, k)
  {
    hide DenyRequests, End, Fill;
    RestAll(script);
    HeldNone(rc, script);
    if Fails(script, 0) {
      FailKeeps(call, rc, script);
      FailHeld(rc, script, 0);
    } else {
      var up := Svc(call, rc, script, log);
      SameFill(call, script[0], rc);
      DenyExact(caller, up.msg, up.script, up.log);
      EndHeld(caller, up.msg, up.script);
      HeldShift(rc, script, End(caller, up.msg, up.script).taken);
    }
  }

  lemma SameAnswer(call: Call, reply: Reply, m: Message)
    requires call.SendReq? && !call.wide
    ensures Fill(call, reply, m) == Fill(SendReq(false, 0, 0, NO_ARGS), reply, m)
  {
  }

  lemma WrongCode(m: Message)
    ensures Wrong(m) <==> IsRc(m) && IsError(m) && ErrorCode(m) == OK
  {
  }

  lemma {:induction false} TalkRequests(caller: uint16, m: Message, rc: Message, script: seq<Reply>, i: nat)
    requires i < |Talk(caller, m, rc, script)| - 1
    ensures RcRequest(Talk(caller, m, rc, script)[i])
    decreases |script|
  {
    hide Fill, Held, Turn, RcRequest;
    var k := Turn(caller, rc, script);
    if i > 0 {
      TalkRequests(caller, Fill(SendReq(false, 0, 0, NO_ARGS), script[k], m), Held(rc, script, k), script[k + 1..],
        i - 1);
    }
  }

  /** A forwarded request that succeeds still holds an RC message exactly if one
      of the callee's answers is an error message with the code for success. */
  lemma ForwardOk(own: uint16, caller: uint16, callee: uint16, m: Message, rc: Message, script: seq<Reply>,
                  log: seq<Call>)
    ensures var r := Forward(own, caller, callee, m, rc, script, log); var ms := Talk(caller, m, rc, script);
            r.res == OK && IsRc(r.msg) <==> exists i :: 0 <= i < |ms| && Wrong(ms[i])
  {
    hide Forward, Talk, IsError, ErrorCode, Wrong;
    ForwardExact(own, caller, callee, m, rc, script, log);
    var ms := Talk(caller, m, rc, script);
    WrongCode(Last(ms));
    forall i | 0 <= i < |ms| - 1 ensures !Wrong(ms[i]) {
      TalkRequests(caller, m, rc, script, i);
      WrongCode(ms[i]);
    }
  }

  /** No reply brings an error message with the code for success. */
  ghost predicate Innocent(script: seq<Reply>) {
    forall i :: 0 <= i < |script| && script[i].Delivered? ==> !WrongBody(script[i].body)
  }

  lemma {:induction false} InnocentTalk(caller: uint16, m: Message, rc: Message, script: seq<Reply>, i: nat)
    requires Innocent(script) && !Wrong(m) && i < |Talk(caller, m, rc, script)|
    ensures !Wrong(Talk(caller, m, rc, script)[i])
    decreases |script|
  {
    hide Held, Turn, RcRequest;
    var k := Turn(caller, rc, script);
    if i > 0 {
      InnocentTalk(caller, Fill(SendReq(false, 0, 0, NO_ARGS), script[k], m), Held(rc, script, k), script[k + 1..],
        i - 1);
    }
  }

  /** Without such replies success means that the last message is no RC message. */
  lemma ForwardInnocent(own: uint16, caller: uint16, callee: uint16, m: Message, rc: Message, script: seq<Reply>,
                        log: seq<Call>)
    requires Innocent(script) && !Wrong(m)
    ensures var r := Forward(own, caller, callee, m, rc, script, log); r.res == OK ==> !IsRc(r.msg)
  {
    hide Forward, Talk, Wrong, Innocent;
    ForwardOk(own, caller, callee, m, rc, script, log);
    var ms := Talk(caller, m, rc, script);
    forall i | 0 <= i < |ms| ensures !Wrong(ms[i]) {
      InnocentTalk(caller, m, rc, script, i);
    }
  }

  // ------------------------------------------------------ what is sent

  /** The calls after the first |log| are waits and error messages with this
      code. */
  ghost predicate OnlyErrors(log: seq<Call>, log': seq<Call>, code: int32) {
    log <= log' && forall i :: |log| <= i < |log'| ==> log'[i].Wait? || IsErrorCall(log'[i], code)
  }

  predicate IsErrorCall(c: Call, code: int32) { c.SendResp? && !c.wide && c.body == ErrorBody(code) }

  lemma {:induction false} DenyRequestsSends(caller: uint16, m: Message, script: seq<Reply>, log: seq<Call>)
    ensures OnlyErrors(log, DenyRequests(caller, m, script, log).log, BUSY)
    decreases |script|
  {
    hide Fill, ErrorBody, Expected;
    if !Expected(m, caller) {
      var e := Svc(ErrorReply(m, BUSY), m, script, log);
      if e.res == OK {
        DenyRequestsSends(caller, e.msg, e.script, e.log);
      } else {
        var w := Svc(Wait, e.msg, e.script, e.log);
        if w.res == OK { DenyRequestsSends(caller, w.msg, w.script, w.log); }
      }
    }
  }

  lemma {:induction false} DenyResponsesSends(m: Message, script: seq<Reply>, log: seq<Call>)
    ensures OnlyErrors(log, DenyResponses(m, script, log).log, DENIED)
    decreases |script|
  {
    hide Fill, ErrorBody, IsRc;
    if IsRc(m) {
      var e := Svc(ErrorReply(m, DENIED), m, script, log);
      if e.res == OK { DenyResponsesSends(e.msg, e.script, e.log); }
    }
  }

  /** An error message with the code for success goes out. */
  predicate Marks(c: Call) { !c.Wait? && WrongBody(c.body) }

  ghost predicate NoMarks(log: seq<Call>, log': seq<Call>) {
    log <= log' && forall i :: |log| <= i < |log'| ==> !Marks(log'[i])
  }

  lemma ErrorsUnmarked(log: seq<Call>, log': seq<Call>, code: int32)
    requires OnlyErrors(log, log', code) && code != OK
    ensures NoMarks(log, log')
  {
    forall i | |log| <= i < |log'| ensures !Marks(log'[i]) {
      assert AsWord(code) != 0;
    }
  }

  lemma {:induction false} InnocentHeld(m: Message, script: seq<Reply>, j: nat)
    requires Innocent(script) && !Wrong(m)
    ensures !Wrong(Held(m, script, j))
  {
    if j > 0 { InnocentHeld(m, script, j - 1); }
  }

  /** The forwarding loop passes such a message on only if it got one. */
  lemma {:induction false} ForwardSends(own: uint16, caller: uint16, callee: uint16, m: Message, rc: Message,
                                        script: seq<Reply>, log: seq<Call>)
    requires Innocent(script) && !Wrong(rc)
    ensures NoMarks(log, Forward(own, caller, callee, m, rc, script, log).log)
    decreases |script|
  {
    hide Fill, Held, Turn, Passed, Forward, Marks, Wrong;
    if RcRequest(m) {
      var k := Turn(caller, rc, script);
      var d := Passed(own, caller, m, rc, script, log);
      ForwardStep(own, caller, callee, m, rc, script, log);
      RoundSends(own, caller, callee, m, rc, script, log);
      if !Fails(script, k) {
        InnocentHeld(rc, script, k);
        ForwardSends(own, caller, callee, Fill(SendReq(false, 0, 0, NO_ARGS), script[k], m), Held(rc, script, k),
          script[k + 1..],
                     d.log + [DownCall(own, callee, d)]);
      }
    } else {
      ForwardEnds(own, caller, callee, m, rc, script, log);
    }
  }

  lemma RoundSends(own: uint16, caller: uint16, callee: uint16, m: Message, rc: Message, script: seq<Reply>,
                   log: seq<Call>)
    requires RcRequest(m) && Innocent(script) && !Wrong(rc)
    ensures var d := Passed(own, caller, m, rc, script, log); NoMarks(log, d.log + [DownCall(own, callee, d)])
  {
    hide Fill, Held, DenyRequests, Turn, Narrow, ErrorBody, IsRc, IsError, WrongBody, Wrong, OnlyErrors;
    var up := Svc(UpCall(own, caller, m), rc, script, log);
    var d := Passed(own, caller, m, rc, script, log);
    Turned(UpCall(own, caller, m), caller, rc, script, log);
    InnocentHeld(rc, script, Turn(caller, rc, script));
    DenyRequestsSends(caller, up.msg, up.script, up.log);
    if up.res == OK { ErrorsUnmarked(up.log, d.log, BUSY); }
    RequestUnmarked(m);
    ForwardedUnmarked(d.res, d.msg);
  }

  lemma RequestUnmarked(m: Message)
    requires RcRequest(m)
    ensures !WrongBody(Narrow(m.body))
  {
  }

  lemma ForwardedUnmarked(res: int32, m: Message)
    requires !Wrong(m)
    ensures !WrongBody(Narrow(m.body)) && (res != OK ==> !WrongBody(ErrorBody(res)))
  {
    if res != OK { assert AsWord(res) != 0; }
  }
}
