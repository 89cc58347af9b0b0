/**
 The client half of the exception RPC: request packing, reply checks and the calls
 themselves, over a model of mach_msg that hands the request to the server of
 ExceptionServer and its reply back.
 */
module ExceptionClient {
  import opened Word32
  import opened MachMessage
  import opened ExceptionMessages
  import opened ExceptionServer

  function RequestBits(r: Routine): (bits: word) {
    MsghBits(COPY_SEND, MAKE_SEND_ONCE) + if r.HasPorts() then MACH_MSGH_BITS_COMPLEX else 0
  }

  /** Words 0 to `end` of `m` are ready to be sent as the call of `a` on `port`. */
  ghost predicate IsRequest(m: seq<word>, end: nat, port: word, replyPort: word, a: Args) {
    && Carries(m, end, a, COPY_SEND)
    && m[a.Routine().Ndr()..a.Routine().Ndr() + 2] == NDR_RECORD
    && m[BITS] == RequestBits(a.Routine())
    && m[REMOTE_PORT] == port && m[LOCAL_PORT] == replyPort
    && m[ID] == a.Routine().Id()
  }

  // ---------- Packing ----------

  /** memcpy into a message. */
  method CopyWords(dst: array<word>, at: nat, src: seq<word>)
    requires at + |src| <= dst.Length
    modifies dst
    ensures dst[at..at + |src|] == src
    ensures forall i :: 0 <= i < dst.Length && !(at <= i < at + |src|) ==> dst[i] == old(dst[i])
  {
    forall i | 0 <= i < |src| { dst[at + i] := src[i]; }
  }

  /** Descriptor count and descriptors; the padding of a descriptor keeps whatever was there. */
  method PackPorts(mess: array<word>, thread: word, task: word)
    requires mess.Length >= 13
    modifies mess
    ensures mess[6] == 2 && mess[7] == thread && mess[10] == task
    ensures IsPortDescriptor(mess[9], COPY_SEND) && IsPortDescriptor(mess[12], COPY_SEND)
  {
    mess[6] := 2;
    mess[7] := thread;
    mess[9] := Descriptor(mess[9] % 0x1_0000, 19, MACH_MSG_PORT_DESCRIPTOR);
    mess[10] := task;
    mess[12] := Descriptor(mess[12] % 0x1_0000, 19, MACH_MSG_PORT_DESCRIPTOR);
  }

  method PackHeader(mess: array<word>, r: Routine, port: word, replyPort: word)
    requires mess.Length >= 13
    modifies mess
    ensures mess[BITS] == RequestBits(r) && IsComplex(mess[BITS]) == r.HasPorts()
    ensures mess[REMOTE_PORT] == port && mess[LOCAL_PORT] == replyPort && mess[ID] == r.Id()
    ensures forall i :: HEADER_WORDS <= i < mess.Length ==> mess[i] == old(mess[i])
  {
    mess[BITS] := RequestBits(r);
    mess[REMOTE_PORT] := port;
    mess[LOCAL_PORT] := replyPort;
    mess[ID] := r.Id();
  }

  /** What both packers do up to the codes. Gives up when the codes do not fit. */
  method PackCodes(mess: array<word>, r: Routine, caller: Caller, exception: word, code: seq<word>, codeCnt: word)
    returns (rc: word)
    requires mess.Length == r.RequestWords() && caller.Identified? == r.HasPorts()
    requires codeCnt <= 2 ==> 2 * codeCnt <= |code|
    modifies mess
    ensures rc == if codeCnt > 2 then MIG_ARRAY_TOO_LARGE else KERN_SUCCESS
    ensures caller.Identified? ==> mess[6] == 2 && caller == Identified(mess[7], mess[10])
    ensures caller.Identified? ==> IsPortDescriptor(mess[9], COPY_SEND) && IsPortDescriptor(mess[12], COPY_SEND)
    ensures mess[r.Ndr()..r.Ndr() + 2] == NDR_RECORD && mess[r.Ndr() + 2] == exception
    ensures rc == KERN_SUCCESS ==>
              mess[r.Ndr() + 3] == codeCnt && mess[r.Ndr() + 4..r.Ndr() + 4 + 2 * codeCnt] == code[..2 * codeCnt]
  {
    var n := r.Ndr();
    if caller.Identified? {
      PackPorts(mess, caller.thread, caller.task);
    }
    mess[n], mess[n + 1] := NDR_RECORD[0], NDR_RECORD[1];
    mess[n + 2] := exception;
    if codeCnt > 2 {
      return MIG_ARRAY_TOO_LARGE;
    }
    CopyWords(mess, n + 4, code[..2 * codeCnt]);
    mess[n + 3] := codeCnt;
    rc := KERN_SUCCESS;
    assert mess[n..n + 2] == NDR_RECORD;
    assert mess[n + 4..n + 4 + 2 * codeCnt] == code[..2 * codeCnt];
  }

  method PackRaise(mess: array<word>, port: word, replyPort: word, thread: word, task: word, exception: word,
                   code: seq<word>, codeCnt: word)
    returns (rc: word, msghSize: word)
    requires mess.Length == Raise.RequestWords()
    requires codeCnt <= 2 ==> 2 * codeCnt <= |code|
    modifies mess
    ensures rc == if codeCnt > 2 then MIG_ARRAY_TOO_LARGE else KERN_SUCCESS
    ensures rc == KERN_SUCCESS ==>
              && msghSize == 68 + 8 * codeCnt
              && IsRequest(mess[..], msghSize / 4, port, replyPort,
                           Args(Identified(thread, task), exception, code[..2 * codeCnt], Stateless))
  {
    msghSize := 0;
    rc := PackCodes(mess, Raise, Identified(thread, task), exception, code, codeCnt);
    if rc != KERN_SUCCESS {
      return;
    }
    var count: int := codeCnt;
    msghSize := U32(U32(84 - 16) + U32(8 * count));
    ghost var packed := mess[..];
    PackHeader(mess, Raise, port, replyPort);
    assert mess[17..17 + 2 * codeCnt] == packed[17..17 + 2 * codeCnt] && mess[13..15] == packed[13..15];
  }

  /** Everything but the header of a state request: ports and fields. */
  ghost predicate IsPacked(m: seq<word>, end: nat, a: Args) {
    && a.Valid() && |m| == a.Routine().RequestWords()
    && (a.caller.Identified? ==>
          && m[6] == 2 && a.caller == Identified(m[7], m[10])
          && IsPortDescriptor(m[9], COPY_SEND) && IsPortDescriptor(m[12], COPY_SEND))
    && m[a.Routine().Ndr()..a.Routine().Ndr() + 2] == NDR_RECORD
    && Fields(m, a.Routine().Ndr() + 2, end, a)
  }

  /** Writing the header disturbs nothing that is packed behind it. */
  lemma HeaderCompletes(packed: seq<word>, m: seq<word>, end: nat, port: word, replyPort: word, a: Args)
    requires IsPacked(packed, end, a) && |m| == |packed|
    requires forall i :: HEADER_WORDS <= i < |m| ==> m[i] == packed[i]
    requires m[BITS] == RequestBits(a.Routine()) && IsComplex(m[BITS]) == a.Routine().HasPorts()
    requires m[REMOTE_PORT] == port && m[LOCAL_PORT] == replyPort && m[ID] == a.Routine().Id()
    ensures IsRequest(m, end, port, replyPort, a)
  {
    var at := a.Routine().Ndr() + 4;
    var c := at + |a.code|;
    assert m[at - 4..at - 2] == packed[at - 4..at - 2] && m[at..c] == packed[at..c];
    if a.context.Stateful? { assert m[c + 2..end] == packed[c + 2..end]; }
  }

  method PackState(mess: array<word>, port: word, replyPort: word, caller: Caller, exception: word,
                   code: seq<word>, codeCnt: word, flavor: word, oldState: seq<word>, oldStateCnt: word)
    returns (rc: word, msghSize: word)
    requires mess.Length == StateRoutine(caller).RequestWords()
    requires codeCnt <= 2 ==> 2 * codeCnt <= |code|
    requires oldStateCnt <= 224 ==> oldStateCnt <= |oldState|
    modifies mess
    ensures rc == if codeCnt > 2 || oldStateCnt > 224 then MIG_ARRAY_TOO_LARGE else KERN_SUCCESS
    ensures rc == KERN_SUCCESS ==>
              && msghSize == StateRoutine(caller).BaseSize() + 8 * codeCnt + 4 * oldStateCnt
              && IsRequest(mess[..], msghSize / 4, port, replyPort,
                           Args(caller, exception, code[..2 * codeCnt], Stateful(flavor, oldState[..oldStateCnt])))
  {
    rc, msghSize := PackStateFields(mess, caller, exception, code, codeCnt, flavor, oldState, oldStateCnt);
    if rc != KERN_SUCCESS {
      return;
    }
    ghost var packed := mess[..];
    PackHeader(mess, StateRoutine(caller), port, replyPort);
    HeaderCompletes(packed, mess[..], msghSize / 4, port, replyPort,
                    Args(caller, exception, code[..2 * codeCnt], Stateful(flavor, oldState[..oldStateCnt])));
  }

  /**
   The two-phase packing of both state requests. `inP` is the struct pointer, as a distance
   in words from the start of the message; after the slide it points up to four words
   before it, so that the fields declared behind code[2] land behind the codes present.
   */
  method PackStateFields(mess: array<word>, caller: Caller, exception: word, code: seq<word>, codeCnt: word,
                         flavor: word, oldState: seq<word>, oldStateCnt: word)
    returns (rc: word, msghSize: word)
    requires mess.Length == StateRoutine(caller).RequestWords()
    requires codeCnt <= 2 ==> 2 * codeCnt <= |code|
    requires oldStateCnt <= 224 ==> oldStateCnt <= |oldState|
    modifies mess
    ensures rc == if codeCnt > 2 || oldStateCnt > 224 then MIG_ARRAY_TOO_LARGE else KERN_SUCCESS
    ensures rc == KERN_SUCCESS ==>
              && msghSize == StateRoutine(caller).BaseSize() + 8 * codeCnt + 4 * oldStateCnt
              && IsPacked(mess[..], msghSize / 4,
                          Args(caller, exception, code[..2 * codeCnt], Stateful(flavor, oldState[..oldStateCnt])))
  {
    hide IsPortDescriptor, U32, IsPacked;
    msghSize := 0;
    var r := StateRoutine(caller);
    var n, inP: int := r.Ndr(), 0;
    rc := PackCodes(mess, r, caller, exception, code, codeCnt);
    if rc != KERN_SUCCESS {
      return;
    }
    ghost var packed := mess[..];
    var count: int := codeCnt;
    var msghSizeDelta: int := U32(8 * count);
    msghSize := U32(r.BaseSize() + msghSizeDelta);
    inP := inP + msghSizeDelta / 4 - 4;
    rc := PackSlid(mess, inP + n + 8, flavor, oldState, oldStateCnt);
    if rc != KERN_SUCCESS {
      return;
    }
    var stateCount: int := oldStateCnt;
    msghSize := U32(msghSize + U32(4 * stateCount));
    SlidCompletes(packed, mess[..],
                  Args(caller, exception, code[..2 * codeCnt], Stateful(flavor, oldState[..oldStateCnt])));
  }

  /** Trailing fields behind the codes, with everything before them as packed first. */
  lemma SlidCompletes(packed: seq<word>, m: seq<word>, a: Args)
    requires a.Valid() && a.context.Stateful? && |packed| == |m| == a.Routine().RequestWords()
    requires a.caller.Identified? ==>
               && packed[6] == 2 && a.caller == Identified(packed[7], packed[10])
               && IsPortDescriptor(packed[9], COPY_SEND) && IsPortDescriptor(packed[12], COPY_SEND)
    requires var n := a.Routine().Ndr();
      && packed[n..n + 2] == NDR_RECORD
      && packed[n + 2] == a.exception && packed[n + 3] == |a.code| / 2 && packed[n + 4..n + 4 + |a.code|] == a.code
    requires var at := a.Routine().Ndr() + 4 + |a.code|;
      && (forall i :: 0 <= i < at ==> m[i] == packed[i])
      && m[at] == a.context.flavor && m[at + 1] == |a.context.oldState|
      && m[at + 2..at + 2 + |a.context.oldState|] == a.context.oldState
    ensures IsPacked(m, a.Routine().Ndr() + 6 + |a.code| + |a.context.oldState|, a)
  {
    var n := a.Routine().Ndr();
    assert m[n..n + 2] == packed[n..n + 2] && m[n + 4..n + 4 + |a.code|] == packed[n + 4..n + 4 + |a.code|];
  }

  /**
   The writes through the slid pointer, whose `flavor` field is word `at`. They touch
   nothing before that word.
   */
  method PackSlid(mess: array<word>, at: nat, flavor: word, oldState: seq<word>, oldStateCnt: word)
    returns (rc: word)
    requires at + 226 <= mess.Length
    requires oldStateCnt <= 224 ==> oldStateCnt <= |oldState|
    modifies mess
    ensures rc == if oldStateCnt > 224 then MIG_ARRAY_TOO_LARGE else KERN_SUCCESS
    ensures forall i :: 0 <= i < at ==> mess[i] == old(mess[i])
    ensures rc == KERN_SUCCESS ==>
              && mess[at] == flavor && mess[at + 1] == oldStateCnt
              && mess[at + 2..at + 2 + oldStateCnt] == oldState[..oldStateCnt]
  {
    mess[at] := flavor;
    if oldStateCnt > 224 {
      return MIG_ARRAY_TOO_LARGE;
    }
    CopyWords(mess, at + 2, oldState[..oldStateCnt]);
    ghost var copied := mess[at + 2..at + 2 + oldStateCnt];
    mess[at + 1] := oldStateCnt;
    assert mess[at + 2..at + 2 + oldStateCnt] == copied;
    rc := KERN_SUCCESS;
  }

  function StateRoutine(caller: Caller): (routine: Routine) {
    if caller.Anonymous? then RaiseState else RaiseStateIdentity
  }

  // ---------- Transport ----------

  /**
   What is received when a request is sent: the same arguments, with rights instead of
   requests for rights, its size stamped and the two ports swapped.
   */
  ghost predicate IsReceived(buf: seq<word>, port: word, replyPort: word, a: Args) {
    && |buf| >= 247 && a.Valid()
    && buf[SIZE] % 4 == 0 && Carries(buf, buf[SIZE] / 4, a, PORT_SEND)
    && buf[LOCAL_PORT] == port && buf[REMOTE_PORT] == replyPort
    && buf[ID] == a.Routine().Id()
    && RemoteBits(buf[BITS]) == 18 && LocalBits(buf[BITS]) == 17
  }

  lemma RequestBitsFields(r: Routine)
    ensures LocalBits(RequestBits(r)) == 21 && RemoteBits(RequestBits(r)) == 19
    ensures RequestBits(r) == 19 + 0x100 * 21 + if r == RaiseState then 0 else 0x8000_0000
    ensures IsComplex(RequestBits(r)) == r.HasPorts()
  {
  }

  /** Fields that arrive word for word are the fields that were sent. */
  lemma FieldsArrive(m: seq<word>, at: nat, end: nat, buf: seq<word>, a: Args)
    requires a.Valid() && Fields(m, at, end, a) && end <= |buf|
    requires forall i :: at <= i < end ==> buf[i] == m[i]
    ensures Fields(buf, at, end, a)
  {
    var c := at + 2 + |a.code|;
    assert buf[at + 2..c] == m[at + 2..c];
    if a.context.Stateful? { assert buf[c + 2..end] == m[c + 2..end]; }
  }

  lemma RequestIsReceived(m: seq<word>, end: nat, buf: seq<word>, port: word, replyPort: word, a: Args)
    requires IsRequest(m, end, port, replyPort, a) && Arrives(m, end, buf) && |buf| >= 247
    ensures IsReceived(buf, port, replyPort, a)
  {
    RequestBitsFields(a.Routine());
    hide RemoteBits, LocalBits, Disposition, DescriptorType;
    var n := a.Routine().Ndr();
    forall i | n <= i < end ensures buf[i] == m[i] {
      assert buf[i] == ArrivingWord(m, i);
    }
    FieldsArrive(m, n + 2, end, buf, a);
    hide Fields;
  }

  /** The server's view of a request: accepted, and answered with what the handler does for `a`. */
  lemma ReceivedIsServed<S>(h: Handler<S>, s: S, buf: seq<word>, port: word, replyPort: word, a: Args)
    requires IsReceived(buf, port, replyPort, a)
    ensures WellFormed(a.Routine(), buf) && Decode(a.Routine(), buf) == a
    ensures var (res, s') := h(s, port, a); ReplyTo(h, s, buf) == (ResultReply(a.Routine(), res), s')
  {
    CarriedIsAccepted(buf, a);
  }

  /** The size the server stamps on a reply. */
  function ReplySize(reply: Reply): (size: word) {
    match reply
    case Bare(_) => ERROR_REPLY_SIZE
    case WithState(_, _, count) => U32(STATE_REPLY_SIZE + 4 * count)
  }

  lemma ReplySizeAligned(reply: Reply)
    ensures ReplySize(reply) % 4 == 0
  {
    if reply.WithState? {
      var size: int := STATE_REPLY_SIZE + 4 * (reply.count as int);
      assert size % 4 == 0 && size % MODULUS == size - MODULUS * (size / MODULUS);
    }
  }

  /** What a client buffer holds after receiving `reply` under message id `id`. */
  ghost predicate Holds(mess: seq<word>, id: word, reply: Reply) {
    && |mess| >= 11
    && mess[ID] == id && !IsComplex(mess[BITS]) && mess[SIZE] == ReplySize(reply)
    && (reply.Bare? ==> mess[RET_CODE] == reply.retCode)
    && (reply.WithState? ==>
          && (mess[SIZE] >= 36 ==> mess[RET_CODE] == KERN_SUCCESS)
          && (mess[SIZE] >= 44 ==> mess[REPLY_FLAVOR] == reply.flavor && mess[NEW_STATE_COUNT] == reply.count)
          && (reply.count <= 224 ==>
                |mess| >= NEW_STATE + reply.count
                && mess[NEW_STATE..NEW_STATE + reply.count] == reply.newState[..reply.count]))
  }

  lemma AnswerIsHeld(out: seq<word>, m: seq<word>, reply: Reply, mess: seq<word>)
    requires Answers(out, m, reply) && Arrives(out, out[SIZE] / 4, mess) && |mess| >= 11
    requires out[SIZE] <= 940 && m[ID] < 0x7fff_0000
    ensures Holds(mess, m[ID] + 100, reply) && mess[LOCAL_PORT] == m[REMOTE_PORT]
  {
    hide RemoteBits, LocalBits, MsghBits, Disposition, DescriptorType;
    ReplySizeAligned(reply);
    if reply.WithState? && reply.count <= 224 {
      forall k | 0 <= k < reply.count ensures mess[NEW_STATE + k] == reply.newState[k] {
        assert mess[NEW_STATE + k] == out[NEW_STATE + k] == out[NEW_STATE..REPLY_WORDS][k];
      }
    }
  }

  /** The codes a failing call can have. */
  type Failure = code: word | code != KERN_SUCCESS witness 1

  /**
   How mach_msg fares otherwise: it works; it fails before the server has seen the request;
   or it fails in its receiving half, when the server has served the request already.
   */
  datatype Transport = Works | Unsent(code: Failure) | Lost(code: Failure)

  /**
   How the call ends when the server has no message to send back: with the notification
   that the send-once right of the reply port is gone, or with an error code.
   */
  datatype Unanswered = Notified | Ended(code: Failure)

  /** A reply too short for a header cannot be sent; one that says MIG_NO_REPLY is not. */
  predicate IsSent(reply: Reply) {
    ReplySize(reply) >= 24 && reply != Bare(MIG_NO_REPLY)
  }

  /**
   mach_msg, sending and receiving in one call. A request that is sent is served, once, from
   4096-byte buffers whose other words are arbitrary, and the reply comes back over the
   request, followed by a trailer. If there is no reply `unanswered` says what the caller
   gets; one that does not fit the receive limit with its trailer is refused. `s'` is the
   server's state afterwards.
   */
  method MachMsg<S>(h: Handler<S>, s: S, transport: Transport, unanswered: Unanswered,
                    mess: array<word>, sendSize: word, limit: nat,
                    ghost port: word, ghost replyPort: word, ghost a: Args)
    returns (r: word, s': S)
    requires sendSize % 4 == 0 && 48 <= sendSize <= 988 && sendSize <= 4 * mess.Length
    requires IsRequest(mess[..], sendSize / 4, port, replyPort, a)
    requires 44 <= limit <= 948 && limit <= 4 * mess.Length
    modifies mess
    ensures s' == if transport.Unsent? then s else h(s, port, a).1
    ensures !transport.Works? ==> r == transport.code
    ensures transport.Works? ==>
              var reply := ResultReply(a.Routine(), h(s, port, a).0);
              if !IsSent(reply) then IsUnanswered(unanswered, r, mess[..])
              else if ReplySize(reply) + 8 > limit then r == MACH_RCV_TOO_LARGE
              else r == KERN_SUCCESS && Holds(mess[..], a.Routine().Id() + 100, reply) && mess[LOCAL_PORT] == replyPort
  {
    if transport.Unsent? {
      return transport.code, s;
    }
    var in0, out := new word[1024], new word[1024];
    Transmit(mess, sendSize / 4, in0);
    RequestIsReceived(mess[..], sendSize / 4, in0[..], port, replyPort, a);
    ReceivedIsServed(h, s, in0[..], port, replyPort, a);
    ghost var buf := in0[..];
    var known;
    known, s' := Serve(h, s, in0, out);
    if transport.Lost? {
      return transport.code, s';
    }
    r := Receive(out, mess, limit, unanswered, buf, ResultReply(a.Routine(), h(s, port, a).0));
  }

  /** The result and buffer of a call that is not answered. */
  ghost predicate IsUnanswered(unanswered: Unanswered, r: word, mess: seq<word>) {
    match unanswered
    case Notified => r == KERN_SUCCESS && |mess| > ID && mess[ID] == MACH_NOTIFY_SEND_ONCE
    case Ended(code) => r == code
  }

  /** The receiving half: the reply in `out` is sent back into `mess`. */
  method Receive(out: array<word>, mess: array<word>, limit: nat, unanswered: Unanswered,
                 ghost m: seq<word>, ghost reply: Reply)
    returns (r: word)
    requires out != mess && Answers(out[..], m, reply) && m[ID] < 0x7fff_0000
    requires 44 <= limit <= 948 && limit <= 4 * mess.Length
    modifies mess
    ensures if !IsSent(reply) then IsUnanswered(unanswered, r, mess[..])
            else if ReplySize(reply) + 8 > limit then r == MACH_RCV_TOO_LARGE
            else r == KERN_SUCCESS && Holds(mess[..], m[ID] + 100, reply) && mess[LOCAL_PORT] == m[REMOTE_PORT]
  {
    var size := out[SIZE];
    assert size == ReplySize(reply);
    if size < 24 || (size == ERROR_REPLY_SIZE && out[RET_CODE] == MIG_NO_REPLY) {
      if unanswered.Ended? {
        return unanswered.code;
      }
      mess[ID] := MACH_NOTIFY_SEND_ONCE;
      return KERN_SUCCESS;
    }
    if size + 8 > limit {
      return MACH_RCV_TOO_LARGE;
    }
    var trailerType: word, trailerSize: word := *, *;
    mess[size / 4], mess[size / 4 + 1] := trailerType, trailerSize;
    Transmit(out, size / 4, mess);
    AnswerIsHeld(out[..], m, reply, mess[..]);
    r := KERN_SUCCESS;
  }

  // ---------- Reply checks ----------

  function CheckReplyId(r: Routine, id: word): (rc: word) {
    if id == r.Id() + 100 then KERN_SUCCESS
    else if id == MACH_NOTIFY_SEND_ONCE then MIG_SERVER_DIED
    else MIG_REPLY_MISMATCH
  }

  function CheckRaiseReply(m: seq<word>): (rc: word)
    requires |m| >= 11
  {
    if CheckReplyId(Raise, m[ID]) != KERN_SUCCESS then CheckReplyId(Raise, m[ID])
    else if IsComplex(m[BITS]) || m[SIZE] != 36 then MIG_TYPE_ERROR
    else m[RET_CODE]
  }

  function CheckStateReply(r: Routine, m: seq<word>): (rc: word)
    requires |m| >= 11
  {
    if CheckReplyId(r, m[ID]) != KERN_SUCCESS then CheckReplyId(r, m[ID])
    else
      var size := m[SIZE];
      if IsComplex(m[BITS]) || ((size > 940 || size < U32(940 - 896)) && (size != 36 || m[RET_CODE] == KERN_SUCCESS))
      then MIG_TYPE_ERROR
      else if m[RET_CODE] != KERN_SUCCESS then m[RET_CODE]
      else if m[NEW_STATE_COUNT] > 224 then MIG_TYPE_ERROR
      else if U32(size - U32(940 - 896)) / 4 < m[NEW_STATE_COUNT]
              || size != U32(U32(940 - 896) + U32(m[NEW_STATE_COUNT] * 4))
      then MIG_TYPE_ERROR
      else KERN_SUCCESS
  }

  /**
   Reply soundness, for every received buffer: a state reply counts as a success exactly
   when, over the integers, its size is that of the count it announces and the count fits
   new_state.
   */
  lemma StateReplyAccepted(r: Routine, m: seq<word>)
    requires |m| >= 11
    ensures CheckStateReply(r, m) == KERN_SUCCESS <==>
            && m[ID] == r.Id() + 100 && !IsComplex(m[BITS])
            && m[RET_CODE] == KERN_SUCCESS && m[NEW_STATE_COUNT] <= 224
            && m[SIZE] == 44 + 4 * m[NEW_STATE_COUNT]
  {
    if m[SIZE] >= 44 && m[NEW_STATE_COUNT] <= 224 {
      RoomTest(m[SIZE], 44, 4, m[NEW_STATE_COUNT]);
    }
  }

  /**
   What either check makes of any received buffer: first the message id, then complex bit and
   size, then the return code that is there.
   */
  lemma StateReplyJudged(r: Routine, m: seq<word>)
    requires r.HasState() && |m| >= 11
    ensures var id, size, retCode := m[5], m[1], m[8];
      var wellSized := m[0] < 0x8000_0000 && (44 <= size <= 940 || (size == 36 && retCode != 0));
      CheckStateReply(r, m) ==
      if id == 71 then MODULUS - 308
      else if id != (if r == RaiseState then 2506 else 2507) then MODULUS - 301
      else if !wellSized then MODULUS - 300
      else if retCode != 0 then retCode
      else if m[10] <= 224 && size == 44 + 4 * m[10] then 0
      else MODULUS - 300
  {
    if m[SIZE] >= 44 && m[NEW_STATE_COUNT] <= 224 {
      RoomTest(m[SIZE], 44, 4, m[NEW_STATE_COUNT]);
    }
  }

  lemma RaiseReplyJudged(m: seq<word>)
    requires |m| >= 11
    ensures CheckRaiseReply(m) ==
            if m[5] == 71 then MODULUS - 308
            else if m[5] != 2505 then MODULUS - 301
            else if m[0] >= 0x8000_0000 || m[1] != 36 then MODULUS - 300
            else m[8]
  {
  }

  /**
   What the check makes of a reply of this server. A success whose count does not fit
   new_state never passes, even when the server's size computation has wrapped to a size
   that does.
   */
  lemma HeldReplyChecked(r: Routine, m: seq<word>, reply: Reply)
    requires r.HasState() && Holds(m, r.Id() + 100, reply) && IsSent(reply)
    requires reply.Bare? ==> reply.retCode != KERN_SUCCESS
    ensures CheckStateReply(r, m) ==
            match reply
            case Bare(retCode) => retCode
            case WithState(_, _, count) => if count <= 224 then KERN_SUCCESS else MIG_TYPE_ERROR
  {
    if reply.WithState? && reply.count <= 224 {
      StateReplyAccepted(r, m);
    }
  }

  // ---------- The calls ----------

  /**
   mach_exception_raise: RPC transparency. Unless the codes do not fit or the transport
   fails, the call returns what the handler returns when called directly; and unless the
   request is never sent the server's state is that after running the handler once on the
   caller's arguments, even if the caller does not hear of it.
   */
  method MachExceptionRaise<S>(h: Handler<S>, s: S, transport: Transport, unanswered: Unanswered,
                               replyPort: word, exceptionPort: word, thread: word, task: word,
                               exception: word, code: seq<word>, codeCnt: word)
    returns (rc: word, s': S)
    requires codeCnt <= 2 ==> 2 * codeCnt <= |code|
    ensures codeCnt > 2 ==> rc == MIG_ARRAY_TOO_LARGE && s' == s
    ensures codeCnt <= 2 ==>
              var args := Args(Identified(thread, task), exception, code[..2 * codeCnt], Stateless);
              var (res, after) := h(s, exceptionPort, args);
              && s' == (if transport.Unsent? then s else after)
              && (!transport.Works? ==> rc == transport.code)
              && (transport.Works? && res.retCode != MIG_NO_REPLY ==> rc == res.retCode)
              && (transport.Works? && res.retCode == MIG_NO_REPLY ==>
                    rc == if unanswered.Notified? then MIG_SERVER_DIED else unanswered.code)
  {
    s' := s;
    var mess := new word[Raise.RequestWords()];
    var msghSize, msgResult;
    rc, msghSize := PackRaise(mess, exceptionPort, replyPort, thread, task, exception, code, codeCnt);
    if rc != KERN_SUCCESS {
      return;
    }
    ghost var a := Args(Identified(thread, task), exception, code[..2 * codeCnt], Stateless);
    msgResult, s' := MachMsg(h, s, transport, unanswered, mess, msghSize, Raise.ReplyLimit(),
                             exceptionPort, replyPort, a);
    if msgResult != KERN_SUCCESS {
      return msgResult, s';
    }
    var checkResult := CheckRaiseReply(mess[..]);
    if checkResult != KERN_SUCCESS {
      return checkResult, s';
    }
    rc := KERN_SUCCESS;
  }

  /** Reply check and copying out, the last part of both state calls. */
  method UnpackStateReply(r: Routine, mess: array<word>, flavorIn: word, newState: array<word>, countIn: word,
                          ghost reply: Reply)
    returns (rc: word, flavor: word, newCount: word)
    requires r.HasState() && mess.Length == r.RequestWords() && newState.Length >= 224 && newState != mess
    requires if !IsSent(reply) then mess[ID] == MACH_NOTIFY_SEND_ONCE
             else Holds(mess[..], r.Id() + 100, reply)
    requires reply.Bare? ==> reply.retCode != KERN_SUCCESS
    modifies newState
    ensures rc == if !IsSent(reply) then MIG_SERVER_DIED
                  else if reply.Bare? then reply.retCode
                  else if reply.count <= 224 then KERN_SUCCESS
                  else MIG_TYPE_ERROR
    ensures rc == KERN_SUCCESS ==>
              && reply.WithState? && flavor == reply.flavor && newCount == reply.count <= 224
              && newState[..] == reply.newState[..newCount] + old(newState[..])[newCount..]
    ensures rc != KERN_SUCCESS ==> flavor == flavorIn && newCount == countIn && newState[..] == old(newState[..])
  {
    flavor, newCount := flavorIn, countIn;
    if IsSent(reply) {
      HeldReplyChecked(r, mess[..], reply);
    }
    rc := CheckStateReply(r, mess[..]);
    if rc != KERN_SUCCESS {
      return;
    }
    StateReplyAccepted(r, mess[..]);
    flavor := mess[REPLY_FLAVOR];
    if mess[NEW_STATE_COUNT] > 224 {
      // Copying all of new_state and MIG_ARRAY_TOO_LARGE: the check has ruled this out.
      assert false;
    }
    CopyWords(newState, 0, mess[NEW_STATE..NEW_STATE + mess[NEW_STATE_COUNT]]);
    newCount := mess[NEW_STATE_COUNT];
    assert newState[0..0 + newCount] == reply.newState[..newCount];
  }

  /**
   mach_exception_raise_state for an anonymous caller, mach_exception_raise_state_identity
   for an identified one: RPC transparency. The call returns the handler's return code;
   only on success do the out parameters change, and then to what the handler set, new_state
   in its first `newCount` words. A success announcing more words than new_state has is an
   error to the caller. The handler's other effects happen once unless the request is never
   sent.
   */
  method MachExceptionRaiseState<S>(h: Handler<S>, s: S, transport: Transport, unanswered: Unanswered,
                                    replyPort: word, exceptionPort: word, caller: Caller, exception: word,
                                    code: seq<word>, codeCnt: word, flavorIn: word,
                                    oldState: seq<word>, oldStateCnt: word, newState: array<word>, countIn: word)
    returns (rc: word, flavor: word, newCount: word, s': S)
    requires codeCnt <= 2 ==> 2 * codeCnt <= |code|
    requires oldStateCnt <= 224 ==> oldStateCnt <= |oldState|
    requires newState.Length >= 224
    modifies newState
    ensures codeCnt > 2 || oldStateCnt > 224 ==> rc == MIG_ARRAY_TOO_LARGE && s' == s
    ensures codeCnt <= 2 && oldStateCnt <= 224 ==>
              var args := Args(caller, exception, code[..2 * codeCnt], Stateful(flavorIn, oldState[..oldStateCnt]));
              var (res, after) := h(s, exceptionPort, args);
              // The size the server computes for a success, in 32 bits.
              var size := (44 + 4 * res.count) % 0x1_0000_0000;
              && s' == (if transport.Unsent? then s else after)
              && (!transport.Works? ==> rc == transport.code)
              && (transport.Works? && res.retCode !in {KERN_SUCCESS, MIG_NO_REPLY} ==> rc == res.retCode)
              && (transport.Works? && res.retCode == KERN_SUCCESS && res.count <= 224 ==> rc == KERN_SUCCESS)
              && (transport.Works? && res.retCode == KERN_SUCCESS && res.count > 224 && size > 940 ==>
                    rc == MACH_RCV_TOO_LARGE)
              && (transport.Works? && res.retCode == KERN_SUCCESS && res.count > 224 && 24 <= size <= 940 ==>
                    rc == MIG_TYPE_ERROR)
              && (transport.Works? && (res.retCode == MIG_NO_REPLY
                                       || (res.retCode == KERN_SUCCESS && res.count > 224 && size < 24)) ==>
                    rc == if unanswered.Notified? then MIG_SERVER_DIED else unanswered.code)
              && (rc == KERN_SUCCESS ==>
                    && flavor == res.flavor && newCount == res.count <= 224
                    && newState[..] == res.newState[..newCount] + old(newState[..])[newCount..])
    ensures rc != KERN_SUCCESS ==> flavor == flavorIn && newCount == countIn && newState[..] == old(newState[..])
  {
    hide IsRequest, Holds;
    flavor, newCount, s' := flavorIn, countIn, s;
    var r := StateRoutine(caller);
    var mess := new word[r.RequestWords()];
    var msghSize, msgResult;
    rc, msghSize := PackState(mess, exceptionPort, replyPort, caller, exception, code, codeCnt,
                              flavorIn, oldState, oldStateCnt);
    if rc != KERN_SUCCESS {
      return;
    }
    ghost var a := Args(caller, exception, code[..2 * codeCnt], Stateful(flavorIn, oldState[..oldStateCnt]));
    msgResult, s' := MachMsg(h, s, transport, unanswered, mess, msghSize, r.ReplyLimit(), exceptionPort, replyPort, a);
    if msgResult != KERN_SUCCESS {
      return msgResult, flavor, newCount, s';
    }
    ghost var reply := ResultReply(r, h(s, exceptionPort, a).0);
    rc, flavor, newCount := UnpackStateReply(r, mess, flavorIn, newState, countIn, reply);
  }

  // ---------- The repository's handlers ----------

  /** catch_*: exceptions go to the callback, both state forms are refused. */
  function RepositoryHandler<S>(callback: (S, word, Args) -> (word, S)): (handler: Handler<S>) {
    (s: S, port: word, a: Args) =>
      match a.context
      case Stateless =>
        var (retCode, s') := callback(s, port, a);
        (Result(retCode, 0, seq(224, _ => 0), 0), s')
      case Stateful(flavor, _) => (Result(KERN_FAILURE, flavor, seq(224, _ => 0), 224), s)
  }

  /**
   A state request is refused whatever it holds, without any effect, and with KERN_FAILURE
   exactly when it is well-formed.
   */
  lemma RepositoryRefusesStates<S>(callback: (S, word, Args) -> (word, S), s: S, buf: seq<word>)
    requires |buf| >= 247 && buf[ID] in {2406, 2407}
    ensures var (reply, s') := ReplyTo(RepositoryHandler(callback), s, buf);
      && s' == s && reply.Bare?
      && reply.retCode in {KERN_FAILURE, MIG_BAD_ARGUMENTS, MIG_TYPE_ERROR}
      && (reply.retCode == KERN_FAILURE <==>
            WellFormed(if buf[ID] == 2406 then RaiseState else RaiseStateIdentity, buf))
  {
  }
}
