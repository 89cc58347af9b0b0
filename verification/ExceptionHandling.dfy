/**
 The exception callback as a step of a run: it suspends the thread, looks the breakpoint
 up, runs its callback and disables it.
 */
module ExceptionHandling {
  import opened Word32
  import M = MachMessage
  import opened TargetMemory
  import opened SoftwareBreakpoints
  import opened BreakpointRegistry

  datatype PC = Unknown | Known(address: nat)

  /**
   An exception on `thread` of the process `task`. `pc` is where its state says it stopped, if there is a state.
   `callback` is what the breakpoint's callback does to the registry when it is run, empty
   if there is none, and `k` how the kernel treats the Reset that follows.
   */
  datatype Exception =
    Exception(thread: nat, task: nat, isBreakpoint: bool, pc: PC, callback: seq<Command>, k: Kernel)

  datatype Event = Operation(c: Command) | Raised(e: Exception) {
    ghost predicate InRange(n: nat) {
      match this
      case Operation(c) => c.i < n
      case Raised(e) => BreakpointRegistry.InRange(e.callback, n)
    }
  }

  /**
   The breakpoint an exception is taken for: the first listed one at its pc, if that is
   active. Only the address is looked at, not the process.
   */
  function HandledBy(t: Target, e: Exception): (r: Found)
    requires t.Valid()
    ensures r.At? ==> r.i < |t.bps|
  {
    if !e.isBreakpoint || e.pc.Unknown? then Nowhere
    else match t.AtAddress(e.pc.address)
      case Nowhere => Nowhere
      case At(i) => if t.bps[i].active then At(i) else Nowhere
  }

  function AfterException(t: Target, e: Exception): (t': Target)
    requires t.Valid() && InRange(e.callback, |t.bps|)
    ensures t'.Valid() && |t'.bps| == |t.bps|
  {
    match HandledBy(t, e)
    case Nowhere => t
    case At(i) => Run(t, e.callback).ResetAt(i, e.k)
  }

  function Step(t: Target, e: Event): (t': Target)
    requires t.Valid() && e.InRange(|t.bps|)
    ensures t'.Valid() && |t'.bps| == |t.bps|
  {
    match e
    case Operation(c) => t.Do(c)
    case Raised(x) => AfterException(t, x)
  }

  ghost predicate EventsInRange(es: seq<Event>, n: nat) {
    forall j :: 0 <= j < |es| ==> es[j].InRange(n)
  }

  function RunEvents(t: Target, es: seq<Event>): (t': Target)
    requires t.Valid() && EventsInRange(es, |t.bps|)
    ensures t'.Valid() && |t'.bps| == |t.bps|
    decreases |es|
  {
    if es == [] then t else RunEvents(Step(t, es[0]), es[1..])
  }

  lemma RunOne(t: Target, e: Event)
    requires t.Valid() && e.InRange(|t.bps|)
    ensures RunEvents(t, [e]) == Step(t, e)
  {
    assert [e][1..] == [];
    hide Step, Target.Valid;
  }

  // ---------- Counting ----------

  /** Calls of Apply on breakpoint `i` in a list of operations. */
  function AppliesIn(cs: seq<Command>, i: nat): (n: nat) {
    if cs == [] then 0 else (if cs[0].Applies(i) then 1 else 0) + AppliesIn(cs[1..], i)
  }

  /** Calls of Apply on `i` in one event, counting those of a callback that is run. */
  function StepApplies(t: Target, e: Event, i: nat): (n: nat)
    requires t.Valid()
  {
    match e
    case Operation(c) => if c.Applies(i) then 1 else 0
    case Raised(x) => if HandledBy(t, x).At? then AppliesIn(x.callback, i) else 0
  }

  function RunApplies(t: Target, es: seq<Event>, i: nat): (n: nat)
    requires t.Valid() && EventsInRange(es, |t.bps|)
    decreases |es|
  {
    if es == [] then 0 else StepApplies(t, es[0], i) + RunApplies(Step(t, es[0]), es[1..], i)
  }

  /** Exceptions handled by breakpoint `i`. */
  function RunHandled(t: Target, es: seq<Event>, i: nat): (n: nat)
    requires t.Valid() && EventsInRange(es, |t.bps|)
    decreases |es|
  {
    if es == [] then 0
    else (if es[0].Raised? && HandledBy(t, es[0].e) == At(i) then 1 else 0) + RunHandled(Step(t, es[0]), es[1..], i)
  }

  function Active(t: Target, i: nat): (n: nat) {
    if i < |t.bps| && t.bps[i].active then 1 else 0
  }

  /** Only an Apply makes an x86-64 breakpoint active; nothing changes the flag of an ARM one. */
  lemma DoActivates(t: Target, c: Command, i: nat)
    requires t.Valid() && c.i < |t.bps| && i < |t.bps|
    ensures t.Do(c).bps[i].kind == t.bps[i].kind && t.Do(c).bps[i].address == t.bps[i].address
    ensures Active(t.Do(c), i) <= Active(t, i) + if c.Applies(i) then 1 else 0
    ensures !t.bps[i].kind.X64? ==> Active(t.Do(c), i) == Active(t, i)
  {
  }

  lemma {:induction false} CallbackActivates(t: Target, cs: seq<Command>, i: nat)
    requires t.Valid() && InRange(cs, |t.bps|) && i < |t.bps|
    ensures Run(t, cs).bps[i].kind == t.bps[i].kind
    ensures Active(Run(t, cs), i) <= Active(t, i) + AppliesIn(cs, i)
    ensures !t.bps[i].kind.X64? ==> Active(Run(t, cs), i) == Active(t, i)
    decreases |cs|
  {
    if cs != [] {
      DoActivates(t, cs[0], i);
      CallbackActivates(t.Do(cs[0]), cs[1..], i);
    }
  }

  /** One event: being handled costs an x86-64 breakpoint its activity. */
  lemma StepAccounts(t: Target, e: Event, i: nat)
    requires t.Valid() && e.InRange(|t.bps|) && i < |t.bps|
    ensures Step(t, e).bps[i].kind == t.bps[i].kind
    ensures t.bps[i].kind.X64? ==>
              (if e.Raised? && HandledBy(t, e.e) == At(i) then 1 else 0) + Active(Step(t, e), i)
              <= Active(t, i) + StepApplies(t, e, i)
    ensures !t.bps[i].kind.X64? ==> Active(Step(t, e), i) == Active(t, i)
  {
    match e {
      case Operation(c) => DoActivates(t, c, i);
      case Raised(x) =>
        if HandledBy(t, x).At? {
          CallbackActivates(t, x.callback, i);
          CallbackActivates(t, x.callback, HandledBy(t, x).i);
        }
    }
  }

  /**
   Over any run, whatever callbacks do: an x86-64 breakpoint that starts inactive handles
   no more exceptions than it has been applied, and one fewer while it is active.
   */
  lemma {:induction false} HandledAtMostApplied(t: Target, es: seq<Event>, i: nat)
    requires t.Valid() && EventsInRange(es, |t.bps|) && i < |t.bps| && t.bps[i].kind.X64?
    ensures RunHandled(t, es, i) + Active(RunEvents(t, es), i) <= Active(t, i) + RunApplies(t, es, i)
    decreases |es|
  {
    if es != [] {
      StepAccounts(t, es[0], i);
      HandledAtMostApplied(Step(t, es[0]), es[1..], i);
    }
  }

  /** An ARM breakpoint keeps whatever its never initialised flag held, so it handles all its exceptions or none. */
  lemma {:induction false} ArmActivityNeverChanges(t: Target, es: seq<Event>, i: nat)
    requires t.Valid() && EventsInRange(es, |t.bps|) && i < |t.bps| && !t.bps[i].kind.X64?
    ensures RunEvents(t, es).bps[i].active == t.bps[i].active
    ensures !t.bps[i].active ==> RunHandled(t, es, i) == 0
    decreases |es|
  {
    if es != [] {
      StepAccounts(t, es[0], i);
      ArmActivityNeverChanges(Step(t, es[0]), es[1..], i);
    }
  }

  /** Every Apply of an x86-64 breakpoint, callbacks' included, saves one byte, and nothing else does. */
  lemma {:induction false} CallbackSaves(t: Target, cs: seq<Command>, i: nat)
    requires t.Valid() && InRange(cs, |t.bps|) && i < |t.bps| && t.bps[i].kind.X64?
    ensures Run(t, cs).bps[i].kind.X64? && |Run(t, cs).bps[i].saved| == |t.bps[i].saved| + AppliesIn(cs, i)
    decreases |cs|
  {
    if cs != [] {
      DoSaves(t, cs[0], i);
      CallbackSaves(t.Do(cs[0]), cs[1..], i);
    }
  }

  lemma DoSaves(t: Target, c: Command, i: nat)
    requires t.Valid() && c.i < |t.bps| && i < |t.bps| && t.bps[i].kind.X64?
    ensures t.Do(c).bps[i].kind.X64?
    ensures |t.Do(c).bps[i].saved| == |t.bps[i].saved| + if c.Applies(i) then 1 else 0
  {
  }

  lemma StepSaves(t: Target, e: Event, i: nat)
    requires t.Valid() && e.InRange(|t.bps|) && i < |t.bps| && t.bps[i].kind.X64?
    ensures Step(t, e).bps[i].kind.X64? && |Step(t, e).bps[i].saved| == |t.bps[i].saved| + StepApplies(t, e, i)
  {
    match e {
      case Operation(c) => DoSaves(t, c, i);
      case Raised(x) =>
        if HandledBy(t, x).At? {
          CallbackSaves(t, x.callback, i);
          DoSaves(Run(t, x.callback), Disable(HandledBy(t, x).i, x.k), i);
        }
    }
  }

  lemma {:induction false} RunSaves(t: Target, es: seq<Event>, i: nat)
    requires t.Valid() && EventsInRange(es, |t.bps|) && i < |t.bps| && t.bps[i].kind.X64?
    ensures |RunEvents(t, es).bps[i].saved| == |t.bps[i].saved| + RunApplies(t, es, i)
    decreases |es|
  {
    if es != [] {
      StepSaves(t, es[0], i);
      RunSaves(Step(t, es[0]), es[1..], i);
    }
  }

  /**
   So the Applies that bound the exceptions handled can be read off the breakpoint: they are
   the bytes it has saved in the meantime.
   */
  lemma HandledAtMostSaved(t: Target, es: seq<Event>, i: nat)
    requires t.Valid() && EventsInRange(es, |t.bps|) && i < |t.bps| && t.bps[i].kind.X64?
    ensures var after := RunEvents(t, es).bps[i];
      RunHandled(t, es, i) + (if after.active then 1 else 0) + |t.bps[i].saved|
      <= (if t.bps[i].active then 1 else 0) + |after.saved|
  {
    HandledAtMostApplied(t, es, i);
    RunSaves(t, es, i);
  }

  /** Position `j` of the list is the first to hold a breakpoint at `pc`. */
  ghost predicate FirstListed(t: Target, pc: nat, j: nat)
    requires t.Valid()
  {
    && j < |t.listed| && t.bps[t.listed[j]].address == pc
    && forall l :: 0 <= l < j ==> t.bps[t.listed[l]].address != pc
  }

  /**
   An exception is handled by breakpoint `i` exactly when it is a breakpoint exception with
   a known pc, and the first listed breakpoint there is `i` and active; by none, for one
   thing, when no listed breakpoint is there.
   */
  lemma HandledIff(t: Target, e: Exception, i: nat)
    requires t.Valid()
    ensures HandledBy(t, e) == At(i) <==>
            && e.isBreakpoint && e.pc.Known?
            && exists j: nat :: FirstListed(t, e.pc.address, j) && t.listed[j] == i && t.bps[i].active
    ensures e.pc.Known? && (forall l :: 0 <= l < |t.listed| ==> t.bps[t.listed[l]].address != e.pc.address) ==>
              HandledBy(t, e) == Nowhere
  {
    if e.isBreakpoint && e.pc.Known? {
      var f := FirstAt(t.bps, t.listed, e.pc.address, 0);
      if f < |t.listed| { assert FirstListed(t, e.pc.address, f); }
      forall j: nat | FirstListed(t, e.pc.address, j) ensures j == f {
        assert !(f < j) && !(j < f);
      }
    }
  }

  /**
   What a failing Install leaves in memory is nobody's: with no listed breakpoint at its
   address, the exception of the trap is not handled and changes nothing, however often it
   is raised.
   */
  lemma FailedInstallIsUnhandled(t: Target, i: nat, k: Kernel, e: Exception)
    requires t.Valid() && i < |t.bps| && !k.Succeeds() && InRange(e.callback, |t.bps|)
    requires forall l :: 0 <= l < |t.listed| ==> t.bps[t.listed[l]].address != t.bps[i].address
    requires e.pc == Known(t.bps[i].address)
    ensures var t' := t.Do(Install(i, true, k)); HandledBy(t', e) == Nowhere && AfterException(t', e) == t'
  {
    var t' := t.Do(Install(i, true, k));
    FailedInstall(t, i, k);
    forall l | 0 <= l < |t'.listed| ensures t'.bps[t'.listed[l]].address != e.pc.address {
      assert t'.bps[t'.listed[l]].address == t.bps[t.listed[l]].address;
    }
    HandledIff(t', e, i);
  }

  // ---------- Handled once, and for whom ----------

  lemma FirstIsKept(bps: seq<Bp>, listed: seq<nat>, bps': seq<Bp>, listed': seq<nat>, pc: nat)
    requires listed <= listed' && |bps| == |bps'|
    requires forall l :: 0 <= l < |listed'| ==> listed'[l] < |bps|
    requires forall j :: 0 <= j < |bps| ==> bps'[j].address == bps[j].address
    ensures forall l :: 0 <= l < |listed| ==> listed[l] < |bps|
    ensures var f := FirstAt(bps, listed, pc, 0); f < |listed| ==> FirstAt(bps', listed', pc, 0) == f
  {
    assert forall l :: 0 <= l < |listed| ==> listed[l] == listed'[l];
    var f, f' := FirstAt(bps, listed, pc, 0), FirstAt(bps', listed', pc, 0);
    assert f < |listed| ==> !(f < f') && !(f' < f);
  }

  lemma DoKeepsFirst(t: Target, c: Command, pc: nat)
    requires t.Valid() && c.i < |t.bps| && t.AtAddress(pc).At?
    ensures t.Do(c).AtAddress(pc) == t.AtAddress(pc)
  {
    DoKeepsOthers(t, c);
    FirstIsKept(t.bps, t.listed, t.Do(c).bps, t.Do(c).listed, pc);
    hide Target.Do, FirstAt, Bp.Placed;
  }

  lemma {:induction false} RunKeepsFirst(t: Target, cs: seq<Command>, pc: nat)
    requires t.Valid() && InRange(cs, |t.bps|) && t.AtAddress(pc).At?
    ensures Run(t, cs).AtAddress(pc) == t.AtAddress(pc)
    decreases |cs|
  {
    if cs != [] {
      DoKeepsFirst(t, cs[0], pc);
      RunKeepsFirst(t.Do(cs[0]), cs[1..], pc);
    }
  }

  /**
   The next exception at the same place after one that was handled, whatever its callback
   did: an x86-64 breakpoint is used up, an ARM one handles it again.
   */
  lemma HandledAgain(t: Target, e: Exception, next: Exception, i: nat)
    requires t.Valid() && InRange(e.callback, |t.bps|) && HandledBy(t, e) == At(i)
    requires next.isBreakpoint && next.pc == e.pc
    ensures HandledBy(AfterException(t, e), next) == if t.bps[i].kind.X64? then Nowhere else At(i)
  {
    var after := Run(t, e.callback);
    RunKeepsFirst(t, e.callback, e.pc.address);
    CallbackActivates(t, e.callback, i);
    DoKeepsFirst(after, Disable(i, e.k), e.pc.address);
    assert AfterException(t, e) == after.Do(Disable(i, e.k));
  }

  /** Different breakpoints at the same address are in different processes. */
  lemma SamePlace(bps: seq<Bp>, i: nat, c: nat)
    requires Disjoint(bps) && i < |bps| && c < |bps| && bps[i].address == bps[c].address
    ensures i == c <==> bps[i].task == bps[c].task
  {
    assert i < c ==> Apart(bps[i], bps[c]);
    assert c < i ==> Apart(bps[c], bps[i]);
  }

  /** What overlaid memory holds at a breakpoint. */
  lemma CodeInOverlay(t: Target, origs: Memories, applied: set<nat>, c: nat)
    requires Overlaid(t, origs, applied) && c < |t.bps|
    ensures t.bps[c].Code(t.MemoryOf(c)) == if c in applied then t.bps[c].kind.Trap() else OriginalCode(t, origs, c)
  {
    assert ConsistentAt(t, origs, c, c in applied);
  }

  /** In overlaid memory a Reset lifts the trap of its own breakpoint only. */
  lemma ResetLifts(t: Target, origs: Memories, applied: set<nat>, i: nat, c: nat, k: Kernel)
    requires Overlaid(t, origs, applied) && i < |t.bps| && c < |t.bps| && c in applied
    requires OriginalCode(t, origs, c) != t.bps[c].kind.Trap()
    ensures var t' := t.ResetAt(i, k);
      t'.bps[c].Code(t'.MemoryOf(c)) == OriginalCode(t, origs, c) <==> i == c && k.Writes()
  {
    hide Patch, Read, Mapped, Consistent, Disjoint, OriginalOutside, Bp.ResetMemory;
    var t', after := t.ResetAt(i, k), if k.Writes() then applied - {i} else applied;
    ResetKeepsOverlay(t, origs, applied, i, k);
    CodeInOverlay(t', origs, after, c);
    assert OriginalCode(t', origs, c) == OriginalCode(t, origs, c) && t'.bps[c].kind == t.bps[c].kind;
    hide *;
  }

  /**
   Whose breakpoint it is decides whether handling helps. While memory is overlaid with the
   applied traps, let the trap of `c` raise an exception in its process that is handled, with a
   callback that leaves `c` alone: the trap is gone afterwards exactly when the first listed
   breakpoint at the address belongs to that process, and the Reset writes.
   */
  lemma TrapIsLiftedIff(t: Target, origs: Memories, applied: set<nat>, e: Exception, i: nat, c: nat)
    requires Overlaid(t, origs, applied) && HandledBy(t, e) == At(i)
    requires InRange(e.callback, |t.bps|) && Disciplined(t, applied, e.callback)
    requires c < |t.bps| && c in applied && t.bps[c].task == e.task && Known(t.bps[c].address) == e.pc
    requires forall j :: 0 <= j < |e.callback| ==> e.callback[j].i != c
    requires OriginalCode(t, origs, c) != t.bps[c].kind.Trap()
    ensures var t' := AfterException(t, e);
      t'.bps[c].Code(t'.MemoryOf(c)) == OriginalCode(t, origs, c) <==> t.bps[i].task == e.task && e.k.Writes()
  {
    SamePlace(t.bps, i, c);
    RunElsewhere(t, applied, e.callback, c);
    RunKeepsOverlay(t, origs, applied, e.callback);
    var mid := Run(t, e.callback);
    assert OriginalCode(mid, origs, c) == OriginalCode(t, origs, c);
    ResetLifts(mid, origs, AppliedBy(applied, e.callback), i, c, e.k);
    hide Overlaid, Disciplined, Run, Target.ResetAt, Target.Valid, Bp.Code, Bp.Placed, OriginalCode;
  }

  /** Two processes of one byte each. */
  function TwoMemories(address: nat, x: byte, y: byte): (mems: Memories) {
    map[0 := map[address := x], 1 := map[address := y]]
  }

  /** An applied x86-64 breakpoint in each, at the same address. */
  function SideBySide(address: nat, x: byte, y: byte): (t: Target)
    ensures t.Valid() && |t.bps| == 2
  {
    Target(TwoMemories(address, 0xCC, 0xCC),
           [Bp(X64, 0, address, true, [x]), Bp(X64, 1, address, true, [y])], [0, 1])
  }

  lemma SideBySideIsOverlaid(address: nat, x: byte, y: byte)
    ensures Overlaid(SideBySide(address, x, y), TwoMemories(address, x, y), {0, 1})
    ensures OriginalCode(SideBySide(address, x, y), TwoMemories(address, x, y), 1) == [y]
  {
    var t, origs, applied: set<nat> := SideBySide(address, x, y), TwoMemories(address, x, y), {0, 1};
    forall i | 0 <= i < |t.bps| ensures ConsistentAt(t, origs, i, i in applied) {
      assert t.bps[i].Code(t.MemoryOf(i)) == [0xCC];
      assert t.bps[i].Code(origs[i]) == t.bps[i].saved;
    }
    assert t.bps[0].Covers(address) && t.bps[1].Covers(address);
    assert OriginalOutside(t, origs);
    hide Consistent, OriginalOutside;
  }

  /** The trap of the second process is handled by the breakpoint of the first, and stays where it is. */
  lemma TrapStaysIn(address: nat, x: byte, y: byte, e: Exception)
    requires y != 0xCC && e.isBreakpoint && e.task == 1 && e.pc == Known(address) && e.callback == [] && e.k.Writes()
    ensures HandledBy(SideBySide(address, x, y), e) == At(0)
    ensures var t' := AfterException(SideBySide(address, x, y), e); t'.bps[1].Code(t'.MemoryOf(1)) != [y]
  {
    var t, origs := SideBySide(address, x, y), TwoMemories(address, x, y);
    SideBySideIsOverlaid(address, x, y);
    hide Overlaid, TwoMemories, OriginalCode, Bp.Placed, Bp.Code, Patch;
    assert FirstAt(t.bps, t.listed, address, 0) == 0;
    TrapIsLiftedIff(t, origs, {0, 1}, e, 0, 1);
  }

  /**
   After Enable, or an Install with immediate activation, whatever the kernel does: the first
   listed breakpoint at an address handles the next breakpoint exception there, if it is an
   x86-64 one.
   */
  lemma AppliedIsHandled(t: Target, i: nat, k: Kernel, e: Exception)
    requires t.Valid() && i < |t.bps| && t.bps[i].kind.X64? && t.AtAddress(t.bps[i].address) == At(i)
    requires e.isBreakpoint && e.pc == Known(t.bps[i].address)
    ensures HandledBy(t.Do(Enable(i, k)), e) == At(i) && HandledBy(t.Do(Install(i, true, k)), e) == At(i)
  {
    EnableApplies(t, i, k);
    DoKeepsFirst(t, Enable(i, k), t.bps[i].address);
    DoKeepsFirst(t, Install(i, true, k), t.bps[i].address);
    hide Target.Do, Target.Valid;
  }

  /** A breakpoint installed where none was listed handles the next breakpoint exception, and is listed as enabled. */
  lemma InstalledIsHandled(t: Target, i: nat, k: Kernel, e: Exception)
    requires t.Valid() && i < |t.bps| && t.bps[i].kind.X64? && t.AtAddress(t.bps[i].address) == Nowhere
    requires k.unprotect && k.write && k.protect && e.isBreakpoint && e.pc == Known(t.bps[i].address)
    ensures var t' := t.Do(Install(i, true, k));
      HandledBy(t', e) == At(i) && i in Selected(t'.bps, t'.listed, true, false)
  {
    InstallLists(t, i, true, k);
    EnableApplies(t, i, k);
    hide Target.Do, Target.AtAddress, Target.Valid;
    var t' := t.Do(Install(i, true, k));
    assert t'.listed[..|t'.listed| - 1] == t.listed;
  }

  // ---------- Exceptions as operations ----------

  /** An exception that is handled is its callback's operations and a Disable; any other is nothing. */
  lemma ExceptionIsOperations(t: Target, e: Exception)
    requires t.Valid() && InRange(e.callback, |t.bps|)
    ensures match HandledBy(t, e)
            case Nowhere => AfterException(t, e) == t
            case At(i) => AfterException(t, e) == Run(t, e.callback + [Disable(i, e.k)])
  {
    if HandledBy(t, e).At? {
      var last := Disable(HandledBy(t, e).i, e.k);
      RunAppends(t, e.callback, [last]);
      RunSingle(Run(t, e.callback), last);
    }
  }

  /** The registry operations a run of events amounts to. */
  function Operations(t: Target, es: seq<Event>): (cs: seq<Command>)
    requires t.Valid() && EventsInRange(es, |t.bps|)
    ensures InRange(cs, |t.bps|)
    decreases |es|
  {
    if es == [] then []
    else StepOperations(t, es[0]) + Operations(Step(t, es[0]), es[1..])
  }

  function StepOperations(t: Target, e: Event): (cs: seq<Command>)
    requires t.Valid() && e.InRange(|t.bps|)
    ensures InRange(cs, |t.bps|)
  {
    match e
    case Operation(c) => [c]
    case Raised(x) =>
      match HandledBy(t, x)
      case Nowhere => []
      case At(i) => x.callback + [Disable(i, x.k)]
  }

  lemma StepIsRun(t: Target, e: Event)
    requires t.Valid() && e.InRange(|t.bps|)
    ensures Step(t, e) == Run(t, StepOperations(t, e))
  {
    if e.Raised? && HandledBy(t, e.e).At? {
      RunAppends(t, e.e.callback, [Disable(HandledBy(t, e.e).i, e.e.k)]);
    }
  }

  lemma {:induction false} EventsAreRun(t: Target, es: seq<Event>)
    requires t.Valid() && EventsInRange(es, |t.bps|)
    ensures RunEvents(t, es) == Run(t, Operations(t, es))
    decreases |es|
  {
    if es != [] {
      StepIsRun(t, es[0]);
      EventsAreRun(Step(t, es[0]), es[1..]);
      RunAppends(t, StepOperations(t, es[0]), Operations(Step(t, es[0]), es[1..]));
    }
  }

  /**
   So memory is the original overlaid with the applied traps over runs with exceptions, too,
   handled ones undoing the trap that raised them.
   */
  lemma EventsOverlay(t: Target, es: seq<Event>)
    requires t.Valid() && Disjoint(t.bps) && EventsInRange(es, |t.bps|)
    requires forall i :: 0 <= i < |t.bps| ==> t.bps[i].saved == []
    requires Disciplined(t, {}, Operations(t, es))
    ensures Overlaid(RunEvents(t, es), t.mems, AppliedBy({}, Operations(t, es)))
  {
    EventsAreRun(t, es);
    RunOverlays(t, Operations(t, es));
  }

  // ---------- The class ----------

  /** Exceptions on `thread` other than breakpoints. */
  function Foreign(history: seq<Exception>, thread: nat): (n: nat) {
    if history == [] then 0
    else
      var e := history[|history| - 1];
      Foreign(history[..|history| - 1], thread) + if e.thread == thread && !e.isBreakpoint then 1 else 0
  }

  lemma ForeignAppended(history: seq<Exception>, e: Exception, thread: nat)
    ensures Foreign(history + [e], thread)
            == Foreign(history, thread) + if e.thread == thread && !e.isBreakpoint then 1 else 0
  {
    assert (history + [e])[..|history|] == history;
  }

  /** What an exception handler works on: the registry's target, and the exceptions so far. */
  datatype Handling = Handling(target: Target, history: seq<Exception>) {
    /** The exceptions a callback's operations make sense for. */
    predicate Accepts(e: Exception) { target.Valid() && InRange(e.callback, |target.bps|) }

    /** The exception callback: its status, and what it leaves behind. */
    function Callback(e: Exception): (r: (word, Handling))
      requires Accepts(e)
    {
      (StatusOf(target, e), Handling(AfterException(target, e), history + [e]))
    }
  }

  function StatusOf(t: Target, e: Exception): (status: word)
    requires t.Valid()
  {
    if HandledBy(t, e).At? then M.KERN_SUCCESS else M.KERN_FAILURE
  }

  lemma OthersAreNotHandled(t: Target, e: Exception)
    requires t.Valid() && InRange(e.callback, |t.bps|) && !e.isBreakpoint
    ensures HandledBy(t, e) == Nowhere && AfterException(t, e) == t
  {
  }

  class ExceptionHandler {
    const registry: BreakpointHandler
    var history: seq<Exception>
    /** Net suspensions of each thread by this class; a thread not mentioned has none. */
    var suspensions: map<nat, int>

    function Suspended(thread: nat): (n: int)
      reads this
    {
      if thread in suspensions then suspensions[thread] else 0
    }

    function Value(): (value: Handling)
      reads this, registry, registry.all, registry.procs.Values
    {
      Handling(registry.Value(), history)
    }

    /** Each thread is left suspended once for every exception that was not a breakpoint. */
    ghost predicate Valid()
      reads this, registry, registry.all, registry.procs.Values
    {
      && registry.Valid()
      && forall thread: nat :: Suspended(thread) == Foreign(history, thread)
    }

    constructor (registry: BreakpointHandler)
      requires registry.Valid()
      ensures Valid() && this.registry == registry && history == []
    {
      this.registry, history, suspensions := registry, [], map[];
    }

    method ThreadSuspend(thread: nat)
      modifies this
      ensures history == old(history)
      ensures forall t: nat :: Suspended(t) == old(Suspended(t)) + if t == thread then 1 else 0
    {
      suspensions := suspensions[thread := Suspended(thread) + 1];
    }

    method ThreadResume(thread: nat)
      modifies this
      ensures history == old(history)
      ensures forall t: nat :: Suspended(t) == old(Suspended(t)) - if t == thread then 1 else 0
    {
      suspensions := suspensions[thread := Suspended(thread) - 1];
    }

    /** The registry's part in a callback: whether the exception was a breakpoint's. */
    method Dispatch(e: Exception) returns (handled: bool)
      requires registry.Valid() && InRange(e.callback, |registry.all|) && e.isBreakpoint
      modifies registry, registry.all, registry.procs.Values
      ensures registry.Valid() && registry.Value() == old(AfterException(registry.Value(), e))
      ensures handled == old(HandledBy(registry.Value(), e)).At?
    {
      hide Target.Valid, Target.ResetAt, Target.AtAddress, Run, Bp.Placed;
      if e.pc.Known? {
        var bkpt := registry.BreakpointAtAddress(e.pc.address);
        if bkpt != null {
          assert registry.all[bkpt.id] == bkpt;
          if bkpt.active {
            registry.Perform(e.callback);
            var _ := registry.DisableBreakpoint(bkpt, e.k);
            return true;
          }
        }
      }
      handled := false;
    }

    /** Suspends the thread and records the exception; a breakpoint's thread is one suspension ahead. */
    method Record(e: Exception)
      requires Valid()
      modifies this
      ensures history == old(history) + [e]
      ensures forall thread: nat ::
                Suspended(thread) == Foreign(history, thread) + if thread == e.thread && e.isBreakpoint then 1 else 0
    {
      forall thread: nat { ForeignAppended(history, e, thread); }
      ThreadSuspend(e.thread);
      history := history + [e];
    }

    /** The callback once the exception is recorded, as far as breakpoints go. */
    method Respond(e: Exception) returns (status: word)
      requires registry.Valid() && InRange(e.callback, |registry.all|)
      modifies this, registry, registry.all, registry.procs.Values
      ensures registry.Valid() && history == old(history)
      ensures (status, registry.Value()) == old((StatusOf(registry.Value(), e), AfterException(registry.Value(), e)))
      ensures forall t: nat ::
                Suspended(t) == old(Suspended(t)) - if t == e.thread && e.isBreakpoint then 1 else 0
    {
      if !e.isBreakpoint {
        OthersAreNotHandled(registry.Value(), e);
        return M.KERN_FAILURE;
      }
      hide Target.Valid, AfterException, HandledBy, InRange;
      var handled := Dispatch(e);
      ThreadResume(e.thread);
      status := if handled then M.KERN_SUCCESS else M.KERN_FAILURE;
    }

    method ExceptionCallback(e: Exception) returns (status: word)
      requires Valid() && InRange(e.callback, |registry.all|)
      modifies this, registry, registry.all, registry.procs.Values
      ensures Valid()
      ensures (status, Value()) == old(Value().Callback(e))
      ensures status == (if old(HandledBy(registry.Value(), e)).At? then 0 else 5) && history == old(history) + [e]
      ensures forall t: nat ::
                Suspended(t) == old(Suspended(t)) + if t == e.thread && !e.isBreakpoint then 1 else 0
    {
      forall thread: nat { ForeignAppended(history, e, thread); }
      hide Target.Valid, AfterException, HandledBy, Foreign, InRange, Suspended;
      Record(e);
      status := Respond(e);
    }
  }
}
