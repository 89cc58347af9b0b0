/**
 The server half of the exception RPC: request checks, stubs and dispatcher. A received
 request and the reply under construction are buffers of at least the size of the largest
 request (247 words) and reply (235 words).
 */
module ExceptionServer {
  import opened Word32
  import opened MachMessage
  import opened ExceptionMessages

  // Word indices of the reply structures.
  const REPLY_NDR := 6
  const RET_CODE := 8
  const REPLY_FLAVOR := 9
  const NEW_STATE_COUNT := 10
  const NEW_STATE := 11
  const REPLY_WORDS := 235

  /** sizeof(mig_reply_error_t), and of a state reply whose new_state is empty. */
  const ERROR_REPLY_SIZE: word := 36
  const STATE_REPLY_SIZE: word := 44

  /** What a reply says: a return code alone, or a success with the handler's new state. */
  datatype Reply = Bare(retCode: word) | WithState(flavor: word, newState: State224, count: word)

  /**
   What the server owes to a received buffer, and its state afterwards: the handler is run
   once on an accepted request, and on nothing else.
   */
  function ReplyTo<S>(h: Handler<S>, s: S, m: seq<word>): (served: (Reply, S))
    requires |m| >= 247
  {
    match RoutineOfId(Signed(m[ID]))
    case None => (Bare(MIG_BAD_ID), s)
    case Some(r) =>
      if Verdict(r, m) != KERN_SUCCESS then (Bare(Verdict(r, m)), s)
      else
        var (res, s') := h(s, m[LOCAL_PORT], Decode(r, m));
        (ResultReply(r, res), s')
  }

  function ResultReply(r: Routine, res: Result): (reply: Reply) {
    if r.HasState() && res.retCode == KERN_SUCCESS then WithState(res.flavor, res.newState, res.count)
    else Bare(res.retCode)
  }

  /** The reply buffer `out` answers the received buffer `m` with `reply`. */
  ghost predicate Answers(out: seq<word>, m: seq<word>, reply: Reply) {
    && |out| >= REPLY_WORDS && |m| >= 247
    && AnswersHeader(out, m)
    && out[REPLY_NDR..RET_CODE] == NDR_RECORD
    && match reply
       case Bare(retCode) => out[SIZE] == ERROR_REPLY_SIZE && out[RET_CODE] == retCode
       case WithState(flavor, newState, count) =>
         && out[SIZE] == U32(STATE_REPLY_SIZE + 4 * count) && out[RET_CODE] == KERN_SUCCESS
         && out[REPLY_FLAVOR] == flavor && out[NEW_STATE_COUNT] == count
         && out[NEW_STATE..REPLY_WORDS] == newState
  }

  /** Back to the sender, not complex, with the next hundred's id. */
  ghost predicate AnswersHeader(out: seq<word>, m: seq<word>)
    requires |out| >= REPLY_WORDS && |m| >= 247
  {
    && out[BITS] == MsghBits(RemoteBits(m[BITS]), 0)
    && out[REMOTE_PORT] == m[REMOTE_PORT] && out[LOCAL_PORT] == 0
    && out[ID] == U32(Signed(m[ID]) + 100)
  }

  // ---------- Request checks, in 32-bit arithmetic ----------

  function CheckRaiseRequest(m: seq<word>): (rc: word)
    requires |m| >= 247
    ensures rc == Verdict(Raise, m)
  {
    var size := m[SIZE];
    if !IsComplex(m[BITS]) || m[6] != 2 || size < U32(84 - 16) || size > 84 then MIG_BAD_ARGUMENTS
    else if !IsPortDescriptor(m[9], 17) then MIG_TYPE_ERROR
    else if !IsPortDescriptor(m[12], 17) then MIG_TYPE_ERROR
    else if m[16] > 2 then MIG_BAD_ARGUMENTS
    else if U32(size - U32(84 - 16)) / 8 < m[16] || size != U32(U32(84 - 16) + U32(8 * m[16])) then MIG_BAD_ARGUMENTS
    else KERN_SUCCESS
  }

  /** First part of the state checks: complex bit, descriptors and the range of the size. */
  method CheckStateHeader(r: Routine, in0: array<word>) returns (rc: word)
    requires r.HasState() && in0.Length >= 247
    ensures rc == if !Plausible(r, in0[..]) then MIG_BAD_ARGUMENTS
                  else if !PortsTyped(r, in0[..]) then MIG_TYPE_ERROR
                  else KERN_SUCCESS
  {
    var base: word, msghSize := r.BaseSize(), in0[SIZE];
    if r.RaiseState? {
      if IsComplex(in0[BITS]) || msghSize < base || msghSize > U32(base + 912) {
        return MIG_BAD_ARGUMENTS;
      }
      return KERN_SUCCESS;
    }
    if !IsComplex(in0[BITS]) || in0[6] != 2 || msghSize < base || msghSize > U32(base + 912) {
      return MIG_BAD_ARGUMENTS;
    }
    if !IsPortDescriptor(in0[9], 17) {
      return MIG_TYPE_ERROR;
    }
    if !IsPortDescriptor(in0[12], 17) {
      return MIG_TYPE_ERROR;
    }
    rc := KERN_SUCCESS;
  }

  /** The 32-bit test that `count` items of `width` bytes fit behind `base`, over the integers. */
  lemma RoomTest(size: word, base: word, width: nat, count: nat)
    requires base <= size && base <= 1000 && count <= 224 && (width == 4 || width == 8)
    ensures U32(base + U32(width * count)) == base + width * count
    ensures U32(size - base) / width < count <==> size < base + width * count
  {
    if width == 4 {
      assert (size - base) / 4 < count <==> size - base < 4 * count;
    } else {
      assert (size - base) / 8 < count <==> size - base < 8 * count;
    }
  }

  /**
   The check of both state routines. `in1` is the slid pointer In1P, as a distance in words
   from In0P; the fields behind the codes are read through it. All sizes are computed in
   32-bit arithmetic, the verdict they amount to is the one over the integers.
   */
  method CheckStateRequest(r: Routine, in0: array<word>) returns (rc: word, in1: int)
    requires r.HasState() && in0.Length >= 247
    ensures rc == Verdict(r, in0[..])
    ensures rc == KERN_SUCCESS ==> in1 == 2 * CodeCount(r, in0[..]) - 4
  {
    in1 := 0;
    rc := CheckStateHeader(r, in0);
    if rc != KERN_SUCCESS {
      return;
    }
    var base: word, n, msghSize := r.BaseSize(), r.Ndr(), in0[SIZE];
    var codeCnt: int := in0[n + 3];
    var msghSizeDelta := U32(8 * codeCnt);
    if codeCnt > 2 {
      return MIG_BAD_ARGUMENTS, in1;
    }
    // From here on the delta has not wrapped, and neither subtraction below goes under zero.
    assert msghSizeDelta == 8 * codeCnt && base <= msghSize;
    RoomTest(msghSize, base, 8, codeCnt);
    if U32(msghSize - base) / 8 < codeCnt || msghSize < U32(base + U32(8 * codeCnt)) {
      return MIG_BAD_ARGUMENTS, in1;
    }
    assert msghSizeDelta + base <= msghSize;
    msghSize := U32(msghSize - msghSizeDelta);
    in1 := msghSizeDelta / 4 - 4;
    var oldStateCnt: int := in0[in1 + n + 9];
    if oldStateCnt > 224 {
      return MIG_BAD_ARGUMENTS, in1;
    }
    RoomTest(msghSize, base, 4, oldStateCnt);
    if U32(msghSize - base) / 4 < oldStateCnt || msghSize != U32(base + U32(4 * oldStateCnt)) {
      return MIG_BAD_ARGUMENTS, in1;
    }
    rc := KERN_SUCCESS;
  }

  // ---------- Stubs ----------

  /** MIG_RETURN_ERROR: the return code and the NDR record, nothing else. */
  method ReturnError(out: array<word>, code: word)
    requires out.Length >= REPLY_WORDS
    modifies out
    ensures out[..] == old(out[..])[RET_CODE := code][REPLY_NDR := 0][REPLY_NDR + 1 := 1]
  {
    out[RET_CODE] := code;
    out[REPLY_NDR], out[REPLY_NDR + 1] := NDR_RECORD[0], NDR_RECORD[1];
  }

  method RaiseStub<S>(h: Handler<S>, s: S, in0: array<word>, out: array<word>) returns (s': S)
    requires in0.Length >= 247 && out.Length >= REPLY_WORDS && in0 != out
    requires Signed(in0[ID]) == 2405 && AnswersHeader(out[..], in0[..]) && out[SIZE] == ERROR_REPLY_SIZE
    modifies out
    ensures Answers(out[..], in0[..], ReplyTo(h, s, in0[..]).0) && s' == ReplyTo(h, s, in0[..]).1
  {
    var m := in0[..];
    var checkResult := CheckRaiseRequest(m);
    if checkResult != KERN_SUCCESS {
      ReturnError(out, checkResult);
      return s;
    }
    var codeCnt := in0[16];
    var code := in0[17..17 + 2 * codeCnt];
    assert code == m[17..17 + 2 * codeCnt];
    var (result, after) := h(s, in0[LOCAL_PORT], Args(Identified(in0[7], in0[10]), in0[15], code, Stateless));
    s' := after;
    out[RET_CODE] := result.retCode;
    out[REPLY_NDR], out[REPLY_NDR + 1] := NDR_RECORD[0], NDR_RECORD[1];
  }

  /** The arguments a state stub passes on: In0P's leading fields, In1P's trailing ones. */
  method StateArguments(r: Routine, in0: array<word>, in1: int) returns (args: Args)
    requires r.HasState() && in0.Length >= 247 && WellFormed(r, in0[..])
    requires in1 == 2 * CodeCount(r, in0[..]) - 4
    ensures args == Decode(r, in0[..])
  {
    var n := r.Ndr();
    var codeCnt, oldStateCnt := in0[n + 3], in0[in1 + n + 9];
    var caller := if r.HasPorts() then Identified(in0[7], in0[10]) else Anonymous;
    var code := in0[n + 4..n + 4 + 2 * codeCnt];
    var oldState := in0[in1 + n + 10..in1 + n + 10 + oldStateCnt];
    args := Args(caller, in0[n + 2], code, Stateful(in0[in1 + n + 8], oldState));
  }

  /**
   Both state stubs. The handler works in place: it is handed In1P's flavor, which it
   may overwrite, and fills new_state and new_stateCnt of the reply directly.
   */
  method StateStub<S>(r: Routine, h: Handler<S>, s: S, in0: array<word>, out: array<word>) returns (s': S)
    requires r.HasState() && in0.Length >= 247 && out.Length >= REPLY_WORDS && in0 != out
    requires Signed(in0[ID]) == r.Id() && AnswersHeader(out[..], in0[..]) && out[SIZE] == ERROR_REPLY_SIZE
    modifies in0, out
    ensures Answers(out[..], old(in0[..]), ReplyTo(h, s, old(in0[..])).0) && s' == ReplyTo(h, s, old(in0[..])).1
  {
    ghost var m := in0[..];
    var checkResult, in1 := CheckStateRequest(r, in0);
    if checkResult != KERN_SUCCESS {
      ReturnError(out, checkResult);
      return s;
    }
    out[NEW_STATE_COUNT] := 224;
    var args := StateArguments(r, in0, in1);
    var (result, after) := h(s, in0[LOCAL_PORT], args);
    s' := after;
    assert ReplyTo(h, s, m) == (ResultReply(r, result), s');
    var flavorAt := in1 + r.Ndr() + 8;
    in0[flavorAt] := result.flavor;
    FinishStateReply(r, result, in0[flavorAt], out, m);
  }

  /** Wrapping twice is wrapping once. */
  lemma WrappedSize(count: word)
    ensures U32(STATE_REPLY_SIZE + U32(4 * (count as int))) == U32(STATE_REPLY_SIZE + 4 * (count as int))
  {
    var size := 4 * (count as int);
    assert size == MODULUS * (size / MODULUS) + size % MODULUS;
  }

  /** The state stubs after the handler has returned, with the flavor In1P now holds. */
  method FinishStateReply(r: Routine, result: Result, flavor: word, out: array<word>, ghost m: seq<word>)
    requires r.HasState() && out.Length >= REPLY_WORDS && |m| >= 247 && flavor == result.flavor
    requires AnswersHeader(out[..], m) && out[SIZE] == ERROR_REPLY_SIZE
    modifies out
    ensures Answers(out[..], m, ResultReply(r, result))
  {
    WrappedSize(result.count);
    hide RemoteBits, LocalBits, MsghBits, Signed, U32;
    SetNewState(out, result);
    assert forall i :: 0 <= i < RET_CODE ==> out[..RET_CODE][i] == old(out[..RET_CODE])[i];
    if result.retCode != KERN_SUCCESS {
      ReturnError(out, result.retCode);
      return;
    }
    out[REPLY_NDR], out[REPLY_NDR + 1] := NDR_RECORD[0], NDR_RECORD[1];
    out[REPLY_FLAVOR] := flavor;
    var newStateCnt: int := out[NEW_STATE_COUNT];
    out[SIZE] := U32(STATE_REPLY_SIZE + U32(4 * newStateCnt));
    assert out[NEW_STATE..REPLY_WORDS] == result.newState;
    assert out[SIZE] == U32(STATE_REPLY_SIZE + 4 * result.count);
  }

  /** The handler's effect on the reply buffer, and the return code stored there. */
  method SetNewState(out: array<word>, result: Result)
    requires out.Length >= REPLY_WORDS
    modifies out
    ensures out[..RET_CODE] == old(out[..RET_CODE])
    ensures out[RET_CODE] == result.retCode && out[NEW_STATE_COUNT] == result.count
    ensures out[NEW_STATE..REPLY_WORDS] == result.newState
  {
    forall i | 0 <= i < 224 { out[NEW_STATE + i] := result.newState[i]; }
    out[NEW_STATE_COUNT] := result.count;
    out[RET_CODE] := result.retCode;
  }

  // ---------- Dispatch ----------

  datatype Option<T> = None | Some(value: T)

  /** The routine table, indexed by a signed message id. */
  function RoutineOfId(id: int): (r: Option<Routine>)
    ensures r.Some? ==> r.value.Id() == id
    ensures r.None? ==> forall q: Routine :: q.Id() != id
  {
    if id == 2405 then Some(Raise)
    else if id == 2406 then Some(RaiseState)
    else if id == 2407 then Some(RaiseStateIdentity)
    else None
  }

  /** mach_exc_server_routine: the table lookup, with 32-bit wrap-around in the subtraction. */
  function ServerRoutine(id: word): (routine: Option<Routine>) {
    var index := Signed(U32(Signed(id) - 2405));
    if index > 2 || index < 0 then None else RoutineOfId(index + 2405)
  }

  /** The header of an answer, word by word. */
  ghost predicate IsHeaderOfAnswer(out: seq<word>, m: seq<word>) {
    && |out| >= REPLY_WORDS && |m| >= 247
    && out[0] == m[0] % 0x100 && out[2] == m[2] && out[3] == 0
    && out[5] == ((m[5] as int) + 100) % 0x1_0000_0000 && out[6] == 0 && out[7] == 1
  }

  lemma AnswerHasHeader(out: seq<word>, m: seq<word>, reply: Reply)
    requires Answers(out, m, reply)
    ensures IsHeaderOfAnswer(out, m)
  {
    assert out[6] == out[REPLY_NDR..RET_CODE][0] && out[7] == out[REPLY_NDR..RET_CODE][1];
    var id: int := m[ID];
    assert Signed(m[ID]) + 100 == id + 100 || Signed(m[ID]) + 100 == id + 100 - MODULUS;
  }

  /** mach_exc_server: TRUE exactly when the id is one of the subsystem's. */
  method Serve<S>(h: Handler<S>, s: S, in0: array<word>, out: array<word>) returns (known: bool, s': S)
    requires in0.Length >= 247 && out.Length >= REPLY_WORDS && in0 != out
    modifies in0, out
    ensures known == (old(in0[ID]) in {2405, 2406, 2407})
    ensures IsHeaderOfAnswer(out[..], old(in0[..]))
    ensures Answers(out[..], old(in0[..]), ReplyTo(h, s, old(in0[..])).0) && s' == ReplyTo(h, s, old(in0[..])).1
  {
    out[BITS] := MsghBits(RemoteBits(in0[BITS]), 0);
    out[REMOTE_PORT] := in0[REMOTE_PORT];
    out[SIZE] := ERROR_REPLY_SIZE;
    out[LOCAL_PORT] := 0;
    out[ID] := U32(Signed(in0[ID]) + 100);

    ghost var m := in0[..];
    var id := Signed(in0[ID]);
    if id > 2407 || id < 2405 {
      out[REPLY_NDR], out[REPLY_NDR + 1] := NDR_RECORD[0], NDR_RECORD[1];
      out[RET_CODE] := MIG_BAD_ID;
      AnswerHasHeader(out[..], m, Bare(MIG_BAD_ID));
      return false, s;
    }
    match RoutineOfId(id) {
      case Some(Raise) => s' := RaiseStub(h, s, in0, out);
      case Some(r) => s' := StateStub(r, h, s, in0, out);
    }
    AnswerHasHeader(out[..], m, ReplyTo(h, s, m).0);
    known := true;
  }

  /** A request that is not accepted is refused, and nothing else happens. */
  lemma RefusedHasNoEffect<S>(h: Handler<S>, s: S, m: seq<word>)
    requires |m| >= 247
    requires m[ID] !in {2405, 2406, 2407}
             || (m[ID] == 2405 && !WellFormed(Raise, m)) || (m[ID] == 2406 && !WellFormed(RaiseState, m))
             || (m[ID] == 2407 && !WellFormed(RaiseStateIdentity, m))
    ensures var (reply, s') := ReplyTo(h, s, m);
      s' == s && reply.Bare? && reply.retCode in {MODULUS - 300, MODULUS - 303, MODULUS - 304}
    ensures m[ID] !in {2405, 2406, 2407} ==> ReplyTo(h, s, m).0 == Bare(MODULUS - 303)
  {
  }

  /**
   The two ways into the table agree on every 32-bit id: the stub that answers a request
   is the one mach_exc_server_routine names, and there is none exactly for unknown ids.
   */
  lemma DispatchersAgree<S>(h: Handler<S>, s: S, m: seq<word>)
    requires |m| >= 247
    ensures ServerRoutine(m[ID]) == RoutineOfId(Signed(m[ID]))
    ensures ServerRoutine(m[ID]).None? ==> ReplyTo(h, s, m) == (Bare(MIG_BAD_ID), s)
    ensures forall r: Routine :: m[ID] == r.Id() ==> ServerRoutine(m[ID]) == Some(r)
  {
    var index := Signed(m[ID]) - 2405;
    if index < 0 {
      assert Signed(U32(index)) == index || Signed(U32(index)) > 2;
    }
  }
}
