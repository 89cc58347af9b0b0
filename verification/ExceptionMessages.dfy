/**
 The three requests of subsystem mach_exc: what they carry, how it is laid out, and which
 received buffers hold one.
 */
module ExceptionMessages {
  import opened Word32
  import opened MachMessage

  datatype Routine = Raise | RaiseState | RaiseStateIdentity {
    predicate HasPorts() { !RaiseState? }

    predicate HasState() { !Raise? }

    /** msgh_id of the request; the reply's is 100 more. */
    function Id(): (id: word) {
      match this
      case Raise => 2405
      case RaiseState => 2406
      case RaiseStateIdentity => 2407
    }

    /** Word index of the NDR record, which follows the ports when there are any. */
    function Ndr(): (at: nat) { if HasPorts() then 13 else 6 }

    /** sizeof(Request), in words. */
    function RequestWords(): (words: nat) { Ndr() + if HasState() then 234 else 8 }

    /** Size in bytes of a request whose arrays are all empty. */
    function BaseSize(): (bytes: nat) { 4 * (Ndr() + if HasState() then 6 else 4) }

    /** Receive limit of the client: sizeof(Reply), trailer included. */
    function ReplyLimit(): (bytes: nat) { if HasState() then 948 else 44 }
  }

  datatype Caller = Anonymous | Identified(thread: word, task: word)

  datatype Context = Stateless | Stateful(flavor: word, oldState: seq<word>)

  /** The arguments of a call. An int64 code is two words. */
  datatype Args = Args(caller: Caller, exception: word, code: seq<word>, context: Context) {
    ghost predicate Valid() {
      && |code| % 2 == 0 && |code| <= 4
      && (context.Stateful? ==> |context.oldState| <= 224)
      && !(caller.Anonymous? && context.Stateless?)
    }

    function Routine(): (routine: Routine) {
      if context.Stateless? then Raise else if caller.Anonymous? then RaiseState else RaiseStateIdentity
    }
  }

  type State224 = s: seq<word> | |s| == 224 witness seq(224, _ => 0)

  /** What a handler leaves behind: its return code and the out parameters it may set. */
  datatype Result = Result(retCode: word, flavor: word, newState: State224, count: word)

  /**
   The server's catch_* routines, given the exception port and the arguments. What they do
   beyond answering is a change of the server's state `S`.
   */
  type Handler<!S> = (S, word, Args) -> (Result, S)

  // ---------- Layout ----------

  /** The words after the header, one field after the other with no gaps. */
  ghost function Body(ports: seq<word>, ndr: seq<word>, a: Args): (words: seq<word>)
    requires a.Valid()
  {
    ports + ndr + [a.exception, |a.code| / 2] + a.code + Tail(a.context)
  }

  ghost function Tail(c: Context): (words: seq<word>)
    requires c.Stateful? ==> |c.oldState| <= 224
  {
    match c
    case Stateless => []
    case Stateful(flavor, oldState) => [flavor, |oldState|] + oldState
  }

  function TailWords(c: Context): (n: nat) {
    if c.Stateful? then 2 + |c.oldState| else 0
  }

  /** The fields that follow the NDR record, found in words `at` to `end` of `m`. */
  ghost predicate Fields(m: seq<word>, at: nat, end: nat, a: Args) {
    var c := at + 2 + |a.code|;
    && end == c + TailWords(a.context) <= |m|
    && m[at] == a.exception && m[at + 1] == |a.code| / 2 && m[at + 2..c] == a.code
    && (a.context.Stateful? ==>
          m[c] == a.context.flavor && m[c + 1] == |a.context.oldState| && m[c + 2..end] == a.context.oldState)
  }

  predicate IsPortDescriptor(w: word, disposition: word) {
    DescriptorType(w) == MACH_MSG_PORT_DESCRIPTOR && Disposition(w) == disposition
  }

  /** Descriptor count, thread descriptor and task descriptor, exactly when there is an identity. */
  ghost predicate Ports(m: seq<word>, caller: Caller, disposition: word)
    requires |m| >= 13
  {
    && IsComplex(m[BITS]) == caller.Identified?
    && (caller.Identified? ==>
          && m[HEADER_WORDS] == 2 && caller == Identified(m[7], m[10])
          && IsPortDescriptor(m[9], disposition) && IsPortDescriptor(m[12], disposition))
  }

  /** Words 0 to `end` of `m` are a message that carries `a`. */
  ghost predicate Carries(m: seq<word>, end: nat, a: Args, disposition: word) {
    && a.Valid() && |m| >= 13
    && Ports(m, a.caller, disposition)
    && Fields(m, a.Routine().Ndr() + 2, end, a)
  }

  lemma Split(m: seq<word>, at: nat, end: nat, x: seq<word>, y: seq<word>, z: seq<word>)
    requires at <= end <= |m| && m[at..end] == x + y + z
    ensures end == at + |x| + |y| + |z|
    ensures m[at..at + |x|] == x
    ensures m[at + |x|..at + |x| + |y|] == y
    ensures m[at + |x| + |y|..end] == z
  {
    var s := m[at..end];
    assert |s| == |x| + |y| + |z|;
    forall k | 0 <= k < |x| ensures m[at + k] == x[k] { assert s[k] == x[k]; }
    forall k | 0 <= k < |y| ensures m[at + |x| + k] == y[k] { assert s[|x| + k] == y[k]; }
    forall k | 0 <= k < |z| ensures m[at + |x| + |y| + k] == z[k] { assert s[|x| + |y| + k] == z[k]; }
  }

  lemma TailConcatenates(m: seq<word>, at: nat, end: nat, c: Context)
    requires c.Stateful? ==> |c.oldState| <= 224
    requires at <= end <= |m| && end == at + TailWords(c)
    requires c.Stateful? ==> m[at] == c.flavor && m[at + 1] == |c.oldState| && m[at + 2..end] == c.oldState
    ensures m[at..end] == Tail(c)
  {
    if c.Stateful? {
      assert m[at..end] == [m[at], m[at + 1]] + m[at + 2..end];
    }
  }

  lemma FieldsConcatenate(m: seq<word>, at: nat, end: nat, a: Args)
    requires a.Valid() && Fields(m, at, end, a)
    ensures m[at..end] == [a.exception, |a.code| / 2] + a.code + Tail(a.context)
  {
    var c: nat := at + 2 + |a.code|;
    var count: word := |a.code| / 2;
    TailConcatenates(m, c, end, a.context);
    assert m[at..at + 2] == [a.exception, count] && m[at + 2..c] == a.code;
    hide Tail, TailWords, Fields;
    assert m[at..end] == m[at..at + 2] + m[at + 2..c] + m[c..end];
  }

  /** Two words, a middle and a rest. */
  lemma SplitPair(m: seq<word>, at: nat, end: nat, first: word, second: word, y: seq<word>, z: seq<word>)
    requires at <= end <= |m| && m[at..end] == [first, second] + y + z
    ensures end == at + 2 + |y| + |z|
    ensures m[at] == first && m[at + 1] == second
    ensures m[at + 2..at + 2 + |y|] == y && m[at + 2 + |y|..end] == z
  {
    Split(m, at, end, [first, second], y, z);
    assert m[at] == m[at..at + 2][0] && m[at + 1] == m[at..at + 2][1];
  }

  lemma TailHasFields(m: seq<word>, at: nat, end: nat, c: Context)
    requires c.Stateful? ==> |c.oldState| <= 224
    requires at <= end <= |m| && m[at..end] == Tail(c)
    ensures end == at + TailWords(c)
    ensures c.Stateful? ==> m[at] == c.flavor && m[at + 1] == |c.oldState| && m[at + 2..end] == c.oldState
  {
    if c.Stateful? {
      assert Tail(c) == [c.flavor, |c.oldState|] + c.oldState + [];
      SplitPair(m, at, end, c.flavor, |c.oldState|, c.oldState, []);
    }
  }

  lemma PartsHaveFields(m: seq<word>, at: nat, end: nat, exception: word, count: word, code: seq<word>, c: Context)
    requires c.Stateful? ==> |c.oldState| <= 224
    requires at <= end <= |m| && m[at..end] == [exception, count] + code + Tail(c)
    ensures var tail := at + 2 + |code|;
      && end == tail + TailWords(c)
      && m[at] == exception && m[at + 1] == count && m[at + 2..tail] == code
      && (c.Stateful? ==> m[tail] == c.flavor && m[tail + 1] == |c.oldState| && m[tail + 2..end] == c.oldState)
  {
    hide *;
    SplitPair(m, at, end, exception, count, code, Tail(c));
    TailHasFields(m, at + 2 + |code|, end, c);
  }

  lemma ConcatenationHasFields(m: seq<word>, at: nat, end: nat, a: Args)
    requires a.Valid() && at <= end <= |m|
    requires m[at..end] == [a.exception, |a.code| / 2] + a.code + Tail(a.context)
    ensures Fields(m, at, end, a)
  {
    hide Tail;
    var count: word := |a.code| / 2;
    PartsHaveFields(m, at, end, a.exception, count, a.code, a.context);
  }

  /** A message carries `a` exactly when its words are the gapless layout of `a`. */
  lemma CarriesIffTightlyPacked(m: seq<word>, end: nat, a: Args, disposition: word)
    requires a.Valid() && |m| >= 13 && a.Routine().Ndr() + 4 <= end <= |m|
    ensures var n := a.Routine().Ndr();
      Carries(m, end, a, disposition) <==>
      && Ports(m, a.caller, disposition)
      && m[HEADER_WORDS..end] == Body(m[HEADER_WORDS..n], m[n..n + 2], a)
  {
    var n := a.Routine().Ndr();
    var rest := [a.exception, |a.code| / 2] + a.code + Tail(a.context);
    assert Body(m[HEADER_WORDS..n], m[n..n + 2], a) == m[HEADER_WORDS..n + 2] + rest;
    assert m[HEADER_WORDS..end] == m[HEADER_WORDS..n + 2] + m[n + 2..end];
    if Fields(m, n + 2, end, a) {
      FieldsConcatenate(m, n + 2, end, a);
    }
    if m[HEADER_WORDS..end] == m[HEADER_WORDS..n + 2] + rest {
      assert m[n + 2..end] == m[HEADER_WORDS..end][n - 4..] == rest;
      ConcatenationHasFields(m, n + 2, end, a);
    }
  }

  // ---------- Reading a request back ----------

  function CodeCount(r: Routine, m: seq<word>): (count: word)
    requires |m| >= 247
  {
    m[r.Ndr() + 3]
  }

  /** Read behind the codes actually sent, not where struct Request declares it. */
  function StateCount(r: Routine, m: seq<word>): (count: word)
    requires |m| >= 247 && CodeCount(r, m) <= 2
  {
    m[r.Ndr() + 5 + 2 * CodeCount(r, m)]
  }

  /** The header and descriptor count are those of some request of routine `r`. */
  predicate Plausible(r: Routine, m: seq<word>)
    requires |m| >= 247
  {
    && IsComplex(m[BITS]) == r.HasPorts()
    && (r.HasPorts() ==> m[HEADER_WORDS] == 2)
    && r.BaseSize() <= m[SIZE] <= 4 * r.RequestWords()
  }

  predicate PortsTyped(r: Routine, m: seq<word>)
    requires |m| >= 247
  {
    r.HasPorts() ==> IsPortDescriptor(m[9], PORT_SEND) && IsPortDescriptor(m[12], PORT_SEND)
  }

  /** The two counts are within their arrays and, over the integers, explain the size exactly. */
  predicate CountsMatch(r: Routine, m: seq<word>)
    requires |m| >= 247
  {
    && CodeCount(r, m) <= 2
    && (r.HasState() ==> StateCount(r, m) <= 224)
    && m[SIZE] == r.BaseSize() + 8 * CodeCount(r, m) + if r.HasState() then 4 * StateCount(r, m) else 0
  }

  predicate WellFormed(r: Routine, m: seq<word>)
    requires |m| >= 247
  {
    Plausible(r, m) && PortsTyped(r, m) && CountsMatch(r, m)
  }

  /** The verdict a server owes a received buffer. */
  function Verdict(r: Routine, m: seq<word>): (rc: word)
    requires |m| >= 247
    ensures rc == KERN_SUCCESS <==> WellFormed(r, m)
  {
    if !Plausible(r, m) then MIG_BAD_ARGUMENTS
    else if !PortsTyped(r, m) then MIG_TYPE_ERROR
    else if !CountsMatch(r, m) then MIG_BAD_ARGUMENTS
    else KERN_SUCCESS
  }

  /**
   The verdict in the numbers of the wire: the complex bit, the descriptor count and the range
   of the size come first, then the types and dispositions of the ports, then the counts.
   */
  lemma VerdictByWords(r: Routine, m: seq<word>)
    requires |m| >= 247
    ensures var hasPorts := r != RaiseState;
      var least := match r case Raise => 68 case RaiseState => 48 case RaiseStateIdentity => 76;
      var most := match r case Raise => 84 case RaiseState => 960 case RaiseStateIdentity => 988;
      var plausible := (m[0] >= 0x8000_0000) == hasPorts && (hasPorts ==> m[6] == 2) && least <= m[1] <= most;
      var typed := hasPorts ==>
          forall i :: i == 9 || i == 12 ==> m[i] / 0x1_0000 / 0x100 == 0 && m[i] / 0x1_0000 % 0x100 == 17;
      && (!plausible ==> Verdict(r, m) == MODULUS - 304)
      && (plausible && !typed ==> Verdict(r, m) == MODULUS - 300)
      && (plausible && typed ==> Verdict(r, m) == if CountsMatch(r, m) then 0 else MODULUS - 304)
  {
    assert PortsTyped(r, m) <==> (r != RaiseState ==> IsPortDescriptor(m[9], 17) && IsPortDescriptor(m[12], 17));
  }

  /** Where the fields of a message are, and how long it is, in words from its start. */
  lemma WhereFieldsAre(m: seq<word>, end: nat, a: Args, disposition: word)
    requires Carries(m, end, a, disposition)
    ensures var at := if a.caller.Identified? then 15 else 8;
      var codes, tail := at + 2, at + 2 + |a.code|;
      && end == tail + (if a.context.Stateful? then 2 + |a.context.oldState| else 0) <= |m|
      && m[at] == a.exception && 2 * m[at + 1] == |a.code| && m[codes..tail] == a.code
      && (a.context.Stateful? ==>
            && m[tail] == a.context.flavor && m[tail + 1] == |a.context.oldState|
            && m[tail + 2..end] == a.context.oldState)
    ensures (m[0] >= 0x8000_0000) == a.caller.Identified?
    ensures a.caller.Identified? ==>
              && m[6] == 2 && m[7] == a.caller.thread && m[10] == a.caller.task
              && forall i :: i == 9 || i == 12 ==>
                   m[i] / 0x1_0000 / 0x100 == 0 && m[i] / 0x1_0000 % 0x100 == disposition
  {
  }

  /** The arguments found in a well-formed request. */
  function Decode(r: Routine, m: seq<word>): (a: Args)
    requires |m| >= 247 && WellFormed(r, m)
    ensures a.Valid() && a.Routine() == r
  {
    var n, c := r.Ndr(), 2 * CodeCount(r, m);
    Args(if r.HasPorts() then Identified(m[7], m[10]) else Anonymous,
         m[n + 2],
         m[n + 4..n + 4 + c],
         if r.HasState()
         then Stateful(m[n + 4 + c], m[n + 6 + c..n + 6 + c + StateCount(r, m)])
         else Stateless)
  }

  // ---------- The layout is a code ----------

  /**
   Canonical form: a buffer is accepted exactly when its received words carry some
   arguments, and those are the ones decoded from it.
   */
  lemma AcceptedIsCarried(r: Routine, m: seq<word>)
    requires |m| >= 247 && WellFormed(r, m)
    ensures m[SIZE] % 4 == 0 && Carries(m, m[SIZE] / 4, Decode(r, m), PORT_SEND)
  {
  }

  lemma CarriedIsAccepted(m: seq<word>, a: Args)
    requires |m| >= 247 && m[SIZE] % 4 == 0 && Carries(m, m[SIZE] / 4, a, PORT_SEND)
    ensures WellFormed(a.Routine(), m) && Decode(a.Routine(), m) == a
  {
  }

  lemma AcceptedIffCarried(r: Routine, m: seq<word>)
    requires |m| >= 247
    ensures WellFormed(r, m) <==>
            m[SIZE] % 4 == 0 && exists a: Args :: a.Routine() == r && Carries(m, m[SIZE] / 4, a, PORT_SEND)
    ensures WellFormed(r, m) ==>
            forall a: Args :: a.Routine() == r && Carries(m, m[SIZE] / 4, a, PORT_SEND) ==> a == Decode(r, m)
  {
    if WellFormed(r, m) {
      AcceptedIsCarried(r, m);
      assert Decode(r, m).Routine() == r;
    }
    forall a: Args | m[SIZE] % 4 == 0 && a.Routine() == r && Carries(m, m[SIZE] / 4, a, PORT_SEND)
      ensures WellFormed(r, m) && Decode(r, m) == a
    {
      CarriedIsAccepted(m, a);
    }
  }

  /** The fields behind the NDR record are determined by the arguments, length included. */
  lemma SameFields(m: seq<word>, m': seq<word>, at: nat, end: nat, end': nat, a: Args)
    requires a.Valid() && Fields(m, at, end, a) && Fields(m', at, end', a)
    ensures end == end' && at <= end <= |m| && end <= |m'|
    ensures m[at..end] == m'[at..end]
  {
    FieldsConcatenate(m, at, end, a);
    FieldsConcatenate(m', at, end', a);
    hide Tail;
  }

  /**
   Re-encoding: a message that carries, with whatever disposition, the arguments decoded from
   an accepted request has that request's length, and from the exception on its very words, port
   names included. Only header, NDR record and the rest of the descriptors can differ.
   */
  lemma Reencodes(r: Routine, m: seq<word>, m0: seq<word>, end: nat, disposition: word)
    requires |m| >= 247 && WellFormed(r, m) && Carries(m0, end, Decode(r, m), disposition)
    ensures 4 * end == m[SIZE] && end <= |m0| && end <= |m| && r.Ndr() + 2 <= end
    ensures m0[r.Ndr() + 2..end] == m[r.Ndr() + 2..end]
    ensures r.HasPorts() ==> m0[6] == m[6] && m0[7] == m[7] && m0[10] == m[10]
  {
    var a: Args := Decode(r, m);
    AcceptedIsCarried(r, m);
    hide WellFormed, Decode, Fields;
    SameFields(m0, m, r.Ndr() + 2, end, m[SIZE] / 4, a);
    assert r.HasPorts() ==> a.caller == Identified(m[7], m[10]) == Identified(m0[7], m0[10]);
  }

  /** Two buffers that agree on every received word, and on word 6 whatever the size. */
  ghost predicate SameReceived(m: seq<word>, m': seq<word>) {
    && |m| >= 247 && |m'| >= 247
    && forall i :: 0 <= i < 247 && (i < 7 || 4 * i < m[SIZE]) ==> m[i] == m'[i]
  }

  /** Judging a request depends on no word past the received ones, except word 6. */
  lemma VerdictReadsReceivedWords(r: Routine, m: seq<word>, m': seq<word>)
    requires SameReceived(m, m')
    ensures Verdict(r, m) == Verdict(r, m')
  {
    var n := r.Ndr();
    if Plausible(r, m) {
      assert m[n + 3] == m'[n + 3];
      if r.HasPorts() { assert m[9] == m'[9] && m[12] == m'[12]; }
      var c := CodeCount(r, m);
      if r.HasState() && c <= 2 && m[SIZE] >= r.BaseSize() + 8 * c {
        assert m[n + 5 + 2 * c] == m'[n + 5 + 2 * c];
      }
    }
  }

  /** The arguments handed on are made of received words only. */
  lemma DecodeReadsReceivedWords(r: Routine, m: seq<word>, m': seq<word>)
    requires SameReceived(m, m') && WellFormed(r, m)
    ensures WellFormed(r, m') && Decode(r, m) == Decode(r, m')
  {
    VerdictReadsReceivedWords(r, m, m');
    var a, a' := Decode(r, m), Decode(r, m');
    assert a.code == a'.code;
    if r.HasState() { assert a.context.oldState == a'.context.oldState; }
  }
}
