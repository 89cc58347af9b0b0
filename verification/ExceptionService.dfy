/**
 The two halves joined: clients that raise exceptions over the RPC, and the library's
 server, whose catch routine is the exception callback over the breakpoint registry.
 */
module ExceptionService {
  import opened Word32
  import opened TargetMemory
  import opened SoftwareBreakpoints
  import opened BreakpointRegistry
  import opened ExceptionMessages
  import C = ExceptionClient
  import H = ExceptionHandling
  import M = MachMessage

  const EXC_BREAKPOINT: word := 6

  /** What the server finds out about an exception, and what the breakpoint's callback does. */
  datatype Circumstances = Circumstances(pc: H.PC, callback: seq<Command>, k: Kernel)

  /** One call of mach_exception_raise. */
  datatype Call = Call(transport: C.Transport, replyPort: word, port: word, thread: word, task: word,
                       exception: word, code: seq<word>, codeCnt: word, at: Circumstances)
  {
    /** The codes can be read as far as the client reads them. */
    ghost predicate Valid() { codeCnt <= 2 ==> 2 * codeCnt <= |code| }

    /** The request is sent, so that the server serves it. */
    predicate IsServed() { codeCnt <= 2 && !transport.Unsent? }

    /** The arguments of the call. */
    function Arguments(): (a: Args)
      requires Valid() && codeCnt <= 2
    {
      Args(Identified(thread, task), exception, code[..2 * codeCnt], Stateless)
    }
  }

  /** What happens to the service: a call by a client, or an operation on the registry. */
  datatype Action = Remote(call: Call) | Operate(c: Command) {
    ghost predicate InRange(n: nat) {
      match this
      case Remote(call) => call.Valid() && BreakpointRegistry.InRange(call.at.callback, n)
      case Operate(c) => c.i < n
    }
  }

  ghost predicate ActionsInRange(actions: seq<Action>, n: nat) {
    forall j :: 0 <= j < |actions| ==> actions[j].InRange(n)
  }

  /** The exception that catch_mach_exception_raise makes of its arguments. */
  function Caught(a: Args, at: Circumstances): (e: H.Exception) {
    var (thread, task) := if a.caller.Identified? then (a.caller.thread, a.caller.task) else (0, 0);
    H.Exception(thread, task, a.exception == EXC_BREAKPOINT, at.pc, at.callback, at.k)
  }

  /**
   catch_mach_exception_raise: runs the exception callback on whatever arrives. A callback
   on breakpoints there are none of has no meaning.
   */
  function Catch(at: Circumstances): (callback: (H.Handling, word, Args) -> (word, H.Handling)) {
    (s: H.Handling, port: word, a: Args) =>
      var e := Caught(a, at);
      if s.Accepts(e) then s.Callback(e) else (M.KERN_FAILURE, s)
  }

  /** The event an action amounts to; a call that is not served is none. */
  function ActionEvents(action: Action, n: nat): (es: seq<H.Event>)
    requires action.InRange(n)
    ensures H.EventsInRange(es, n) && |es| <= 1
  {
    match action
    case Remote(call) => if call.IsServed() then [H.Raised(Caught(call.Arguments(), call.at))] else []
    case Operate(c) => [H.Operation(c)]
  }

  function EventsOf(actions: seq<Action>, n: nat): (es: seq<H.Event>)
    requires ActionsInRange(actions, n)
    ensures H.EventsInRange(es, n)
  {
    if actions == [] then [] else ActionEvents(actions[0], n) + EventsOf(actions[1..], n)
  }

  /** The exceptions among some events. */
  function Exceptions(es: seq<H.Event>): (raised: seq<H.Exception>) {
    if es == [] then [] else (if es[0].Raised? then [es[0].e] else []) + Exceptions(es[1..])
  }

  /** The registry after one action. */
  function After(t: Target, action: Action): (t': Target)
    requires t.Valid() && action.InRange(|t.bps|)
    ensures t'.Valid() && |t'.bps| == |t.bps|
  {
    H.RunEvents(t, ActionEvents(action, |t.bps|))
  }

  /** What an action returns to a client, if it is a client's, from the registry at the time. */
  function CodeOf(t: Target, action: Action): (rcs: seq<word>)
    requires t.Valid() && action.InRange(|t.bps|)
  {
    match action
    case Operate(_) => []
    case Remote(call) =>
      if call.codeCnt > 2 then [M.MIG_ARRAY_TOO_LARGE]
      else if !call.transport.Works? then [call.transport.code]
      else [H.StatusOf(t, Caught(call.Arguments(), call.at))]
  }

  /** What the clients' calls return, one after the other. */
  function Codes(t: Target, actions: seq<Action>): (rcs: seq<word>)
    requires t.Valid() && ActionsInRange(actions, |t.bps|)
    decreases |actions|
  {
    if actions == [] then [] else CodeOf(t, actions[0]) + Codes(After(t, actions[0]), actions[1..])
  }

  // ---------- The service as it runs ----------

  /** What the server is after one action: the registry changed, and the history longer by the exception served. */
  function ServerAfter(s: H.Handling, action: Action): (s': H.Handling)
    requires s.target.Valid() && action.InRange(|s.target.bps|)
  {
    H.Handling(After(s.target, action), s.history + Exceptions(ActionEvents(action, |s.target.bps|)))
  }

  /** Serving a call is running the catch routine on its arguments. */
  lemma ServedIsCaught(s: H.Handling, call: Call)
    requires s.target.Valid() && Remote(call).InRange(|s.target.bps|)
    ensures ServerAfter(s, Remote(call))
            == if call.IsServed() then Catch(call.at)(s, call.port, call.Arguments()).1 else s
    ensures call.codeCnt <= 2 ==>
              var status := Catch(call.at)(s, call.port, call.Arguments()).0;
              CodeOf(s.target, Remote(call)) == [if call.transport.Works? then status else call.transport.code]
  {
    if call.IsServed() {
      var e := Caught(call.Arguments(), call.at);
      assert ActionEvents(Remote(call), |s.target.bps|) == [H.Raised(e)];
      H.RunOne(s.target, H.Raised(e));
      assert Exceptions([H.Raised(e)]) == [e];
    }
  }

  /**
   One call, from the client's stub through both messages to the exception callback and
   back. `arrived` is the server's state as the messages leave it; the server then runs the
   callback on the exception they have brought, if any.
   */
  method RaiseThrough(server: H.ExceptionHandler, call: Call) returns (rc: word)
    requires server.Valid() && call.Valid() && InRange(call.at.callback, |server.registry.all|)
    modifies server, server.registry, server.registry.all, server.registry.procs.Values
    ensures server.Valid() && server.Value() == old(ServerAfter(server.Value(), Remote(call)))
    ensures [rc] == old(CodeOf(server.registry.Value(), Remote(call)))
    // The same in the call's own fields.
    ensures var e := H.Exception(call.thread, call.task, call.exception == 6, call.at.pc, call.at.callback, call.at.k);
      if call.codeCnt > 2 || call.transport.Unsent? then
        && server.Value() == old(server.Value()) && rc != 0
        && forall t: nat :: server.Suspended(t) == old(server.Suspended(t))
      else
        && server.history == old(server.history) + [e]
        && server.registry.Value() == old(H.AfterException(server.registry.Value(), e))
        && (call.transport.Works? ==> rc == if old(H.HandledBy(server.registry.Value(), e)).At? then 0 else 5)
        && (call.transport.Lost? ==> rc == call.transport.code)
        && forall t: nat ::
             server.Suspended(t) == old(server.Suspended(t)) + if t == call.thread && call.exception != 6 then 1 else 0
  {
    var now, arrived := server.Value(), server.Value();
    var unanswered: C.Unanswered := *;
    ServedIsCaught(now, call);
    rc, arrived := C.MachExceptionRaise(C.RepositoryHandler(Catch(call.at)), now, call.transport, unanswered,
                                        call.replyPort, call.port, call.thread, call.task,
                                        call.exception, call.code, call.codeCnt);
    if |arrived.history| > |now.history| {
      var status := server.ExceptionCallback(arrived.history[|now.history|]);
      assert call.transport.Works? ==> rc == status;
    }
    assert server.Value() == arrived;
  }

  lemma OperationIsDone(s: H.Handling, c: Command)
    requires s.target.Valid() && c.i < |s.target.bps|
    ensures ServerAfter(s, Operate(c)) == H.Handling(Run(s.target, [c]), s.history)
    ensures Run(s.target, [c]).Valid() && |Run(s.target, [c]).bps| == |s.target.bps|
  {
    var es := ActionEvents(Operate(c), |s.target.bps|);
    assert es == [H.Operation(c)] && es[1..] == [] && [c][1..] == [];
    H.RunOne(s.target, H.Operation(c));
    assert Exceptions(es) == [] + Exceptions([]);
    assert Run(s.target, [c]) == Run(s.target.Do(c), []);
    hide Target.Valid, Target.Do;
  }

  method Act(server: H.ExceptionHandler, action: Action) returns (rcs: seq<word>)
    requires server.Valid() && action.InRange(|server.registry.all|)
    modifies server, server.registry, server.registry.all, server.registry.procs.Values
    ensures server.Valid() && IsState(server.registry.Value(), |server.registry.all|)
    ensures server.Value() == old(ServerAfter(server.Value(), action))
    ensures rcs == old(CodeOf(server.registry.Value(), action))
  {
    match action {
      case Remote(call) =>
        var rc := RaiseThrough(server, call);
        rcs := [rc];
      case Operate(c) =>
        OperationIsDone(server.Value(), c);
        hide ServerAfter, Run, H.ExceptionHandler.Suspended, H.Foreign, Target.Valid;
        server.registry.Perform([c]);
        rcs := [];
    }
  }

  /** A registry with `n` breakpoint objects. */
  ghost predicate IsState(t: Target, n: nat) { t.Valid() && |t.bps| == n }

  /**
   Any sequence of calls and operations: every call returns what the registry at its time
   makes of it, the registry is that of the run of events, and the history is longer by just
   the exceptions served, in order.
   */
  method RunService(server: H.ExceptionHandler, actions: seq<Action>) returns (rcs: seq<word>)
    requires server.Valid() && ActionsInRange(actions, |server.registry.all|)
    modifies server, server.registry, server.registry.all, server.registry.procs.Values
    ensures server.Valid()
    ensures rcs == old(Codes(server.registry.Value(), actions))
    ensures var es := EventsOf(actions, |server.registry.all|);
      server.Value() == H.Handling(old(H.RunEvents(server.registry.Value(), es)), old(server.history) + Exceptions(es))
  {
    rcs := [];
    ghost var s, n := server.Value(), |server.registry.all|;
    Begins(s, n, actions);
    hide *;
    for j := 0 to |actions|
      invariant server.Valid() && Continues(s, n, actions, j, rcs, server.Value())
    {
      ContinuesPast(s, n, actions, j, rcs, server.Value());
      var rc := Act(server, actions[j]);
      rcs := rcs + rc;
    }
    Continued(s, n, actions, rcs, server.Value());
  }

  /** After `j` actions the server is `now` and the calls so far have returned `rcs`. */
  ghost predicate Continues(s: H.Handling, n: nat, actions: seq<Action>, j: nat, rcs: seq<word>, now: H.Handling)
    requires ActionsInRange(actions, n) && j <= |actions|
  {
    && IsState(s.target, n) && IsState(now.target, n)
    && Codes(s.target, actions) == rcs + Codes(now.target, actions[j..])
    && H.RunEvents(s.target, EventsOf(actions, n)) == H.RunEvents(now.target, EventsOf(actions[j..], n))
    && s.history + Exceptions(EventsOf(actions, n)) == now.history + Exceptions(EventsOf(actions[j..], n))
  }

  lemma Begins(s: H.Handling, n: nat, actions: seq<Action>)
    requires ActionsInRange(actions, n) && IsState(s.target, n)
    ensures Continues(s, n, actions, 0, [], s)
  {
    assert actions[0..] == actions;
  }

  lemma ContinuesPast(s: H.Handling, n: nat, actions: seq<Action>, j: nat, rcs: seq<word>, now: H.Handling)
    requires ActionsInRange(actions, n) && j < |actions| && Continues(s, n, actions, j, rcs, now)
    ensures IsState(now.target, n) && now.target.Valid() && actions[j].InRange(n) && |now.target.bps| == n
    ensures Continues(s, n, actions, j + 1, rcs + CodeOf(now.target, actions[j]), ServerAfter(now, actions[j]))
  {
    hide Target.Valid, Action.InRange, After, CodeOf, EventsOf, Exceptions, ActionEvents, H.RunEvents, H.EventsInRange;
    var t, rest := now.target, actions[j..];
    assert rest[1..] == actions[j + 1..] && rest[0] == actions[j];
    ActionIsEvents(t, rest);
    assert rcs + Codes(t, rest) == rcs + CodeOf(t, rest[0]) + Codes(After(t, rest[0]), rest[1..]);
  }

  lemma Continued(s: H.Handling, n: nat, actions: seq<Action>, rcs: seq<word>, now: H.Handling)
    requires ActionsInRange(actions, n) && Continues(s, n, actions, |actions|, rcs, now)
    ensures s.target.Valid() && |s.target.bps| == n
    ensures rcs == Codes(s.target, actions)
    ensures now == H.Handling(H.RunEvents(s.target, EventsOf(actions, n)), s.history + Exceptions(EventsOf(actions, n)))
  {
  }

  lemma AtMostOneThenMore(t: Target, now: seq<H.Event>, later: seq<H.Event>)
    requires t.Valid() && H.EventsInRange(now, |t.bps|) && H.EventsInRange(later, |t.bps|) && |now| <= 1
    ensures H.RunEvents(t, now + later) == H.RunEvents(H.RunEvents(t, now), later)
    ensures Exceptions(now + later) == Exceptions(now) + Exceptions(later)
  {
    hide H.Step, Target.Valid, H.Event.InRange;
    if now == [] {
      assert now + later == later;
    } else {
      assert (now + later)[1..] == later && now[1..] == [];
      assert now == [now[0]];
      H.RunOne(t, now[0]);
    }
  }

  /** Doing the first action is running its events. */
  lemma ActionIsEvents(t: Target, actions: seq<Action>)
    requires t.Valid() && actions != [] && ActionsInRange(actions, |t.bps|)
    ensures var n := |t.bps|;
      && H.RunEvents(t, EventsOf(actions, n)) == H.RunEvents(After(t, actions[0]), EventsOf(actions[1..], n))
      && Exceptions(EventsOf(actions, n))
         == Exceptions(ActionEvents(actions[0], n)) + Exceptions(EventsOf(actions[1..], n))
  {
    AtMostOneThenMore(t, ActionEvents(actions[0], |t.bps|), EventsOf(actions[1..], |t.bps|));
    hide Target.Valid, Action.InRange, ActionEvents, Exceptions, H.RunEvents;
  }

  // ---------- What clients see over a run ----------

  /** Calls that return KERN_SUCCESS. */
  function Successes(rcs: seq<word>): (n: nat) {
    if rcs == [] then 0 else (if rcs[0] == M.KERN_SUCCESS then 1 else 0) + Successes(rcs[1..])
  }

  /** A call whose exception is handled, although its client does not hear of it. */
  predicate IsLostHandled(t: Target, action: Action)
    requires t.Valid() && action.InRange(|t.bps|)
  {
    && action.Remote? && action.call.IsServed() && action.call.transport.Lost?
    && H.HandledBy(t, Caught(action.call.Arguments(), action.call.at)).At?
  }

  /** How many such calls there are in a run. */
  function LostHandled(t: Target, actions: seq<Action>): (n: nat)
    requires t.Valid() && ActionsInRange(actions, |t.bps|)
    decreases |actions|
  {
    if actions == [] then 0
    else (if IsLostHandled(t, actions[0]) then 1 else 0) + LostHandled(After(t, actions[0]), actions[1..])
  }

  /** Exceptions handled by any of the first `m` breakpoints. */
  function HandledByAny(t: Target, es: seq<H.Event>, m: nat): (n: nat)
    requires t.Valid() && H.EventsInRange(es, |t.bps|)
  {
    if m == 0 then 0 else HandledByAny(t, es, m - 1) + H.RunHandled(t, es, m - 1)
  }

  /** Calls of Apply on any of the first `m` breakpoints. */
  function AppliedToAny(t: Target, es: seq<H.Event>, m: nat): (n: nat)
    requires t.Valid() && H.EventsInRange(es, |t.bps|)
  {
    if m == 0 then 0 else AppliedToAny(t, es, m - 1) + H.RunApplies(t, es, m - 1)
  }

  /** How many of the first `m` breakpoints are active. */
  function ActiveCount(t: Target, m: nat): (n: nat) {
    if m == 0 then 0 else ActiveCount(t, m - 1) + H.Active(t, m - 1)
  }

  lemma {:induction false} HandledByAnyNow(t: Target, es: seq<H.Event>, m: nat)
    requires t.Valid() && H.EventsInRange(es, |t.bps|) && es != []
    ensures var now := if es[0].Raised? then H.HandledBy(t, es[0].e) else Nowhere;
      HandledByAny(t, es, m) == (if now.At? && now.i < m then 1 else 0) + HandledByAny(H.Step(t, es[0]), es[1..], m)
  {
    if m > 0 { HandledByAnyNow(t, es, m - 1); }
  }

  lemma {:induction false} NothingHandled(t: Target, m: nat)
    requires t.Valid()
    ensures HandledByAny(t, [], m) == 0
  {
    if m > 0 { NothingHandled(t, m - 1); }
  }

  /** One event, or none, and who handles it. */
  lemma HandledNowOrLater(t: Target, now: seq<H.Event>, later: seq<H.Event>)
    requires t.Valid() && H.EventsInRange(now, |t.bps|) && H.EventsInRange(later, |t.bps|) && |now| <= 1
    ensures var handled := now != [] && now[0].Raised? && H.HandledBy(t, now[0].e).At?;
      HandledByAny(t, now + later, |t.bps|)
      == (if handled then 1 else 0) + HandledByAny(H.RunEvents(t, now), later, |t.bps|)
  {
    if now == [] {
      assert now + later == later;
    } else {
      assert (now + later)[1..] == later && now == [now[0]];
      H.RunOne(t, now[0]);
      HandledByAnyNow(t, now + later, |t.bps|);
      hide HandledByAny, H.RunEvents, H.Step, Target.Valid;
    }
  }

  /** One action: whether its exception is handled, and what its client sees of that. */
  lemma ActionIsSeen(t: Target, action: Action)
    requires t.Valid() && action.InRange(|t.bps|)
    ensures var es := ActionEvents(action, |t.bps|);
      var handled := es != [] && es[0].Raised? && H.HandledBy(t, es[0].e).At?;
      Successes(CodeOf(t, action)) + (if IsLostHandled(t, action) then 1 else 0) == if handled then 1 else 0
  {
    hide H.HandledBy, Target.Valid, Caught;
  }

  lemma {:induction false} SuccessesAppend(rcs: seq<word>, more: seq<word>)
    ensures Successes(rcs + more) == Successes(rcs) + Successes(more)
  {
    if rcs == [] {
      assert rcs + more == more;
    } else {
      assert (rcs + more)[1..] == rcs[1..] + more;
      SuccessesAppend(rcs[1..], more);
    }
  }

  /**
   Over every run: the calls that return KERN_SUCCESS, and those whose success is lost on the
   way back, are exactly as many as the exceptions handled. So what clients see is what was
   handled exactly when no handled call loses its reply.
   */
  lemma {:induction false} SuccessesAreHandled(t: Target, actions: seq<Action>)
    requires t.Valid() && ActionsInRange(actions, |t.bps|)
    ensures var seen, handled := Successes(Codes(t, actions)), HandledByAny(t, EventsOf(actions, |t.bps|), |t.bps|);
      && seen + LostHandled(t, actions) == handled
      && (seen == handled <==> LostHandled(t, actions) == 0)
    decreases |actions|
  {
    if actions == [] {
      NothingHandled(t, |t.bps|);
    } else {
      var next := After(t, actions[0]);
      SuccessesAreHandled(next, actions[1..]);
      ActionIsSeen(t, actions[0]);
      HandledNowOrLater(t, ActionEvents(actions[0], |t.bps|), EventsOf(actions[1..], |t.bps|));
      SuccessesAppend(CodeOf(t, actions[0]), Codes(next, actions[1..]));
      hide HandledByAny, Successes, ActionEvents, CodeOf, H.RunEvents, H.HandledBy, Target.Valid;
    }
  }

  lemma {:induction false} AnyHandledAtMostApplied(t: Target, es: seq<H.Event>, m: nat)
    requires t.Valid() && H.EventsInRange(es, |t.bps|) && m <= |t.bps|
    requires forall i :: 0 <= i < |t.bps| ==> t.bps[i].kind.X64?
    ensures HandledByAny(t, es, m) + ActiveCount(H.RunEvents(t, es), m) <= ActiveCount(t, m) + AppliedToAny(t, es, m)
  {
    if m > 0 {
      AnyHandledAtMostApplied(t, es, m - 1);
      H.HandledAtMostApplied(t, es, m - 1);
    }
  }

  /** The bytes saved by the first `m` breakpoints. */
  function SavedBytes(t: Target, m: nat): (n: nat)
    requires m <= |t.bps|
  {
    if m == 0 then 0 else SavedBytes(t, m - 1) + |t.bps[m - 1].saved|
  }

  /** Each Apply saves one byte. */
  lemma {:induction false} AppliedToAnyIsSaved(t: Target, es: seq<H.Event>, m: nat)
    requires t.Valid() && H.EventsInRange(es, |t.bps|) && m <= |t.bps|
    requires forall i :: 0 <= i < |t.bps| ==> t.bps[i].kind.X64?
    ensures SavedBytes(H.RunEvents(t, es), m) == SavedBytes(t, m) + AppliedToAny(t, es, m)
  {
    if m > 0 {
      AppliedToAnyIsSaved(t, es, m - 1);
      H.RunSaves(t, es, m - 1);
    }
  }

  /**
   Over every run of clients' calls and registry operations on x86-64 breakpoints: the calls
   that return KERN_SUCCESS, those whose success is lost, and the breakpoints active at the
   end, are together no more than the Applies made, callbacks' included, and the breakpoints
   active at the start; and the Applies made are the bytes saved meanwhile.
   */
  lemma SuccessesAtMostApplied(t: Target, actions: seq<Action>)
    requires t.Valid() && ActionsInRange(actions, |t.bps|)
    requires forall i :: 0 <= i < |t.bps| ==> t.bps[i].kind.X64?
    ensures var n, es := |t.bps|, EventsOf(actions, |t.bps|);
      Successes(Codes(t, actions)) + LostHandled(t, actions) + ActiveCount(H.RunEvents(t, es), n)
      <= ActiveCount(t, n) + AppliedToAny(t, es, n)
    ensures var n, es := |t.bps|, EventsOf(actions, |t.bps|);
      AppliedToAny(t, es, n) == SavedBytes(H.RunEvents(t, es), n) - SavedBytes(t, n)
  {
    SuccessesAreHandled(t, actions);
    AppliedToAnyIsSaved(t, EventsOf(actions, |t.bps|), |t.bps|);
    AnyHandledAtMostApplied(t, EventsOf(actions, |t.bps|), |t.bps|);
  }

  lemma CodesOfTwo(t: Target, first: Action, second: Action)
    requires t.Valid() && first.InRange(|t.bps|) && second.InRange(|t.bps|)
    ensures Codes(t, [first, second]) == CodeOf(t, first) + CodeOf(After(t, first), second)
  {
    var t' := After(t, first);
    assert [first, second][1..] == [second] && [second][1..] == [];
    assert Codes(t', [second]) == CodeOf(t', second) + Codes(After(t', second), []);
    hide After, CodeOf, Action.InRange, Target.Valid;
  }

  lemma ServedIsException(t: Target, call: Call)
    requires t.Valid() && Remote(call).InRange(|t.bps|) && call.IsServed()
    ensures After(t, Remote(call)) == H.AfterException(t, Caught(call.Arguments(), call.at))
  {
    H.RunOne(t, H.Raised(Caught(call.Arguments(), call.at)));
  }

  /**
   A client that raises an exception again after its reply was lost: if the first attempt was
   handled, the second is refused by an x86-64 breakpoint, whatever the callback did, and
   handled a second time by an ARM one.
   */
  lemma RetryAfterLoss(t: Target, first: Call, second: Call)
    requires t.Valid() && Remote(first).InRange(|t.bps|) && Remote(second).InRange(|t.bps|)
    requires IsLostHandled(t, Remote(first)) && second.codeCnt <= 2 && second.transport.Works?
    requires second.exception == EXC_BREAKPOINT && second.at.pc == first.at.pc
    ensures var i := H.HandledBy(t, Caught(first.Arguments(), first.at)).i;
      Codes(t, [Remote(first), Remote(second)])
      == [first.transport.code, if t.bps[i].kind.X64? then M.KERN_FAILURE else M.KERN_SUCCESS]
  {
    var e, next := Caught(first.Arguments(), first.at), Caught(second.Arguments(), second.at);
    H.HandledAgain(t, e, next, H.HandledBy(t, e).i);
    CodesOfTwo(t, Remote(first), Remote(second));
    ServedIsException(t, first);
    hide After, Codes, H.AfterException, H.HandledBy, Target.Valid;
  }

  /** One active x86-64 breakpoint, and a client whose reply is lost: a handled exception nobody hears of. */
  lemma LostSuccess(failure: C.Failure)
    ensures var t := Target(map[0 := map[0 := 0xCC]], [Bp(X64, 0, 0, true, [0])], [0]);
      var call := Call(C.Lost(failure), 0, 0, 0, 0, EXC_BREAKPOINT, [], 0, Circumstances(H.Known(0), [], SUCCESS));
      && t.Valid() && ActionsInRange([Remote(call)], 1)
      && Successes(Codes(t, [Remote(call)])) == 0 && LostHandled(t, [Remote(call)]) == 1
      && !After(t, Remote(call)).bps[0].active
  {
    var t := Target(map[0 := map[0 := 0xCC]], [Bp(X64, 0, 0, true, [0])], [0]);
    var call := Call(C.Lost(failure), 0, 0, 0, 0, EXC_BREAKPOINT, [], 0, Circumstances(H.Known(0), [], SUCCESS));
    var e := Caught(call.Arguments(), call.at);
    assert H.HandledBy(t, e) == At(0);
    H.RunOne(t, H.Raised(e));
    assert CodeOf(t, Remote(call)) == [failure];
  }
}
