/**
 The breakpoint handler: a list of installed breakpoints over any number of processes, as a
 state machine on values and as the class that carries it out.
 */
module BreakpointRegistry {
  import opened TargetMemory
  import opened SoftwareBreakpoints

  /** The registry's operations on the breakpoint object number `i`, with the kernel's part in them. */
  datatype Command =
    | Install(i: nat, immediate: bool, k: Kernel)
    | Enable(i: nat, k: Kernel)
    | Disable(i: nat, k: Kernel)
  {
    /** Whether carrying out the command calls Apply on `j`. */
    predicate Applies(j: nat) {
      i == j && (Enable? || (Install? && immediate))
    }
  }

  /** The memory of each process, by its task. */
  type Memories = map<nat, Memory>

  /** Memory, all breakpoint objects there are, and the numbers of those installed, in order. */
  datatype Target = Target(mems: Memories, bps: seq<Bp>, listed: seq<nat>) {
    predicate Valid() {
      && (forall i :: 0 <= i < |bps| ==> bps[i].task in mems && bps[i].Placed(mems[bps[i].task]))
      && (forall j :: 0 <= j < |listed| ==> listed[j] < |bps|)
    }

    /** The memory that breakpoint `i` is placed in. */
    function MemoryOf(i: nat): (mem: Memory)
      requires Valid() && i < |bps|
      ensures bps[i].Placed(mem)
    {
      mems[bps[i].task]
    }

    function ApplyAt(i: nat, k: Kernel): (t: Target)
      requires Valid() && i < |bps|
      ensures |t.bps| == |bps| && t.Valid()
    {
      var b := bps[i];
      Target(mems[b.task := b.ApplyMemory(MemoryOf(i), k)], bps[i := b.Applied(MemoryOf(i))], listed)
    }

    function ResetAt(i: nat, k: Kernel): (t: Target)
      requires Valid() && i < |bps|
      ensures |t.bps| == |bps| && t.Valid()
    {
      var b := bps[i];
      Target(mems[b.task := b.ResetMemory(MemoryOf(i), k)], bps[i := b.WithoutTrap()], listed)
    }

    /** A breakpoint whose immediate Apply reports failure is taken off the list again. */
    function Do(c: Command): (t: Target)
      requires Valid() && c.i < |bps|
      ensures |t.bps| == |bps| && t.Valid()
    {
      match c
      case Install(i, immediate, k) =>
        var pushed := this.(listed := listed + [i]);
        if !immediate then pushed
        else if k.Succeeds() then pushed.ApplyAt(i, k)
        else ApplyAt(i, k)
      case Enable(i, k) => ApplyAt(i, k)
      case Disable(i, k) => ResetAt(i, k)
    }

    /** The first installed breakpoint at an address, of whatever process. */
    function AtAddress(pc: nat): (r: Found)
      requires Valid()
      ensures r.At? ==> r.i < |bps| && bps[r.i].address == pc
    {
      var j := FirstAt(bps, listed, pc, 0);
      if j < |listed| then At(listed[j]) else Nowhere
    }
  }

  datatype Found = Nowhere | At(i: nat)

  /** Position of the first listed breakpoint at `pc`, from `from` on; the list's length if there is none. */
  function FirstAt(bps: seq<Bp>, listed: seq<nat>, pc: nat, from: nat): (j: nat)
    requires from <= |listed| && forall l :: 0 <= l < |listed| ==> listed[l] < |bps|
    ensures from <= j <= |listed|
    ensures j < |listed| ==> bps[listed[j]].address == pc
    ensures forall l :: from <= l < j ==> bps[listed[l]].address != pc
    decreases |listed| - from
  {
    if from == |listed| || bps[listed[from]].address == pc then from else FirstAt(bps, listed, pc, from + 1)
  }

  predicate InRange(cs: seq<Command>, n: nat) {
    forall j :: 0 <= j < |cs| ==> cs[j].i < n
  }

  function Run(t: Target, cs: seq<Command>): (r: Target)
    requires t.Valid() && InRange(cs, |t.bps|)
    ensures |r.bps| == |t.bps| && r.Valid()
    decreases |cs|
  {
    if cs == [] then t else Run(t.Do(cs[0]), cs[1..])
  }

  lemma {:induction false} RunAppends(t: Target, cs: seq<Command>, ds: seq<Command>)
    requires t.Valid() && InRange(cs, |t.bps|) && InRange(ds, |t.bps|)
    ensures Run(t, cs + ds) == Run(Run(t, cs), ds)
    decreases |cs|
  {
    if cs == [] {
      assert cs + ds == ds;
    } else {
      assert (cs + ds)[1..] == cs[1..] + ds;
      RunAppends(t.Do(cs[0]), cs[1..], ds);
    }
  }

  lemma RunSingle(t: Target, c: Command)
    requires t.Valid() && c.i < |t.bps|
    ensures Run(t, [c]) == t.Do(c)
  {
    assert [c][1..] == [];
    hide Target.Valid, Target.Do;
  }

  // ---------- What one operation does ----------

  /** Every operation leaves each breakpoint where it is, and all others than its own as they are. */
  lemma DoKeepsOthers(t: Target, c: Command)
    requires t.Valid() && c.i < |t.bps|
    ensures forall j :: 0 <= j < |t.bps| ==>
              && t.Do(c).bps[j].kind == t.bps[j].kind && t.Do(c).bps[j].task == t.bps[j].task
              && t.Do(c).bps[j].address == t.bps[j].address
              && (j != c.i ==> t.Do(c).bps[j] == t.bps[j])
    ensures t.listed <= t.Do(c).listed
  {
  }

  /**
   Enabling, by itself or on installation, makes an x86-64 breakpoint active and saves one byte
   more, whatever the kernel does; an ARM one forgets what it had saved. The list stays as it is.
   */
  lemma EnableApplies(t: Target, i: nat, k: Kernel)
    requires t.Valid() && i < |t.bps|
    ensures var b, after := t.bps[i], t.Do(Enable(i, k));
      && after.bps[i].active == (b.kind.X64? || b.active)
      && after.bps[i].saved == (if b.kind.X64? then b.saved else []) + b.Code(t.MemoryOf(i))
      && after.listed == t.listed
      && after.mems == t.Do(Install(i, true, k)).mems && after.bps == t.Do(Install(i, true, k)).bps
  {
  }

  /** Disabling makes an x86-64 breakpoint inactive, whatever the kernel does, and forgets nothing. */
  lemma DisableResets(t: Target, i: nat, k: Kernel)
    requires t.Valid() && i < |t.bps|
    ensures var b, after := t.bps[i], t.Do(Disable(i, k));
      && after.bps[i].active == (!b.kind.X64? && b.active)
      && after.bps[i].saved == b.saved && after.listed == t.listed
  {
  }

  /** The uses of one breakpoint are its operations, seen from the breakpoint and its process. */
  lemma UseIsOperation(t: Target, i: nat, u: Use)
    requires t.Valid() && i < |t.bps|
    ensures var t' := t.Do(if u.isApply then Enable(i, u.k) else Disable(i, u.k));
      && AfterUse(Site(t.bps[i], t.MemoryOf(i)), u) == Site(t'.bps[i], t'.MemoryOf(i))
      && forall task :: task in t.mems && task != t.bps[i].task ==> task in t'.mems && t'.mems[task] == t.mems[task]
  {
  }

  /**
   An Install that reports success has put the breakpoint last in the list, so that it is the
   one found at its address when none was before; without immediate activation that is all.
   */
  lemma InstallLists(t: Target, i: nat, immediate: bool, k: Kernel)
    requires t.Valid() && i < |t.bps| && (immediate ==> k.unprotect && k.write && k.protect)
    ensures var after := t.Do(Install(i, immediate, k));
      && after.listed == t.listed + [i]
      && (t.AtAddress(t.bps[i].address) == Nowhere ==> after.AtAddress(t.bps[i].address) == At(i))
      && (!immediate ==> after.mems == t.mems && after.bps == t.bps)
  {
    var after, address := t.Do(Install(i, immediate, k)), t.bps[i].address;
    DoKeepsOthers(t, Install(i, immediate, k));
    assert after.listed == t.listed + [i];
    if t.AtAddress(address) == Nowhere {
      var f := FirstAt(after.bps, after.listed, address, 0);
      assert forall l :: 0 <= l < |t.listed| ==> after.listed[l] == t.listed[l];
      assert after.bps[after.listed[|t.listed|]].address == address;
      assert f == |t.listed|;
    }
  }

  // ---------- Memory is the original with the traps of exactly the applied breakpoints ----------

  /** In different processes, or behind one another. */
  predicate Apart(b: Bp, c: Bp) {
    b.task != c.task || b.address + b.Size() <= c.address || c.address + c.Size() <= b.address
  }

  ghost predicate Disjoint(bps: seq<Bp>) {
    forall i, j :: 0 <= i < j < |bps| ==> Apart(bps[i], bps[j])
  }

  ghost predicate Outside(bps: seq<Bp>, task: nat, x: nat) {
    forall i :: 0 <= i < |bps| ==> !(bps[i].task == task && bps[i].Covers(x))
  }

  /** The same processes, with the same addresses mapped. */
  ghost predicate SameSpaces(mems: Memories, origs: Memories) {
    mems.Keys == origs.Keys && forall task :: task in mems ==> mems[task].Keys == origs[task].Keys
  }

  /**
   At this breakpoint memory holds the trap if it is applied, the original code if not,
   and the breakpoint has saved nothing yet or just that code.
   */
  ghost predicate Consistent(b: Bp, mem: Memory, orig: Memory, applied: bool) {
    && b.Placed(mem) && b.Placed(orig)
    && b.Code(mem) == (if applied then b.kind.Trap() else b.Code(orig))
    && ((b.saved == [] && !applied) || b.saved == b.Code(orig))
  }

  ghost predicate ConsistentAt(t: Target, origs: Memories, i: nat, applied: bool)
    requires t.Valid() && SameSpaces(t.mems, origs) && i < |t.bps|
  {
    Consistent(t.bps[i], t.MemoryOf(i), origs[t.bps[i].task], applied)
  }

  /** What the original memory holds at breakpoint `i`. */
  ghost function OriginalCode(t: Target, origs: Memories, i: nat): (code: seq<byte>)
    requires t.Valid() && SameSpaces(t.mems, origs) && i < |t.bps|
  {
    t.bps[i].Code(origs[t.bps[i].task])
  }

  /** Outside all breakpoints memory is the original. */
  ghost predicate OriginalOutside(t: Target, origs: Memories)
    requires SameSpaces(t.mems, origs)
  {
    forall task, x :: task in origs && x in origs[task] && Outside(t.bps, task, x) ==> t.mems[task][x] == origs[task][x]
  }

  /** `t.mems` is `origs` overlaid with the traps of exactly the breakpoints in `applied`. */
  ghost predicate Overlaid(t: Target, origs: Memories, applied: set<nat>) {
    && t.Valid() && SameSpaces(t.mems, origs) && Disjoint(t.bps)
    && (forall i :: 0 <= i < |t.bps| ==> ConsistentAt(t, origs, i, i in applied))
    && OriginalOutside(t, origs)
  }

  /** Which breakpoints' traps are in memory after one more command. */
  function AppliedAfter(applied: set<nat>, c: Command): (after: set<nat>) {
    match c
    case Install(i, immediate, k) => if immediate && k.Writes() then applied + {i} else applied
    case Enable(i, k) => if k.Writes() then applied + {i} else applied
    case Disable(i, k) => if k.Writes() then applied - {i} else applied
  }

  function AppliedBy(applied: set<nat>, cs: seq<Command>): (after: set<nat>)
    decreases |cs|
  {
    if cs == [] then applied else AppliedBy(AppliedAfter(applied, cs[0]), cs[1..])
  }

  /** No Apply on top of an Apply; on x86-64 not even after a Reset. */
  ghost predicate Disciplined(t: Target, applied: set<nat>, cs: seq<Command>)
    requires t.Valid() && InRange(cs, |t.bps|)
    decreases |cs|
  {
    cs == [] ||
    (&& (cs[0].Applies(cs[0].i) ==> cs[0].i !in applied && (t.bps[cs[0].i].kind.X64? ==> t.bps[cs[0].i].saved == []))
     && Disciplined(t.Do(cs[0]), AppliedAfter(applied, cs[0]), cs[1..]))
  }

  /** Writing at one breakpoint shows at no other of its process. */
  lemma ConsistentElsewhere(mem: Memory, orig: Memory, b: Bp, bytes: seq<byte>, c: Bp, applied: bool)
    requires |bytes| <= b.Size() && b.task == c.task && (Apart(b, c) || Apart(c, b))
    requires Consistent(c, mem, orig, applied)
    ensures Consistent(c, Patch(mem, b.address, bytes), orig, applied)
  {
    assert c.Code(Patch(mem, b.address, bytes)) == c.Code(mem);
  }

  /** `t'` differs from `t` in the state of breakpoint `i`, and in memory at most by `bytes` written there. */
  ghost predicate DiffersAt(t: Target, t': Target, i: nat, bytes: seq<byte>)
    requires t.Valid() && t'.Valid() && i < |t.bps|
  {
    && |t'.bps| == |t.bps| && (forall j :: 0 <= j < |t.bps| && j != i ==> t'.bps[j] == t.bps[j])
    && t'.bps[i].kind == t.bps[i].kind && t'.bps[i].task == t.bps[i].task && t'.bps[i].address == t.bps[i].address
    && |bytes| <= t.bps[i].Size()
    && (t'.mems == t.mems || t'.mems == t.mems[t.bps[i].task := Patch(t.MemoryOf(i), t.bps[i].address, bytes)])
  }

  /** Outside all breakpoints memory is not touched, whatever state they are in. */
  lemma OutsideUnpatched(t: Target, t': Target, origs: Memories, i: nat, bytes: seq<byte>)
    requires t.Valid() && t'.Valid() && i < |t.bps| && DiffersAt(t, t', i, bytes)
    requires SameSpaces(t.mems, origs) && OriginalOutside(t, origs)
    ensures SameSpaces(t'.mems, origs) && OriginalOutside(t', origs)
    ensures Disjoint(t.bps) ==> Disjoint(t'.bps)
  {
    forall task, x | task in origs && x in origs[task] && Outside(t'.bps, task, x)
      ensures t'.mems[task][x] == origs[task][x]
    {
      forall j | 0 <= j < |t.bps| ensures !(t.bps[j].task == task && t.bps[j].Covers(x)) {
        assert !(t'.bps[j].task == task && t'.bps[j].Covers(x));
      }
      assert Outside(t.bps, task, x) && !(t.bps[i].task == task && t.bps[i].Covers(x));
    }
  }

  lemma ApplyConsistent(b: Bp, mem: Memory, orig: Memory, k: Kernel)
    requires Consistent(b, mem, orig, false) && (b.kind.X64? ==> b.saved == [])
    ensures Consistent(b.Applied(mem), b.ApplyMemory(mem, k), orig, k.Writes())
  {
    assert b.Applied(mem).saved == b.Code(mem);
    assert b.Code(b.ApplyMemory(mem, k)) == if k.Writes() then b.kind.Trap() else b.Code(mem);
  }

  lemma ResetConsistent(b: Bp, mem: Memory, orig: Memory, applied: bool, k: Kernel)
    requires Consistent(b, mem, orig, applied)
    ensures Consistent(b.WithoutTrap(), b.ResetMemory(mem, k), orig, applied && !k.Writes())
  {
    assert b.Code(b.ResetMemory(mem, k)) == if k.Writes() && b.saved != [] then b.saved else b.Code(mem);
  }

  /** A step that changes one breakpoint, and memory at most there, and leaves it consistent. */
  lemma StepAtOneKeepsOverlay(t: Target, t': Target, origs: Memories, applied: set<nat>, after: set<nat>,
                              i: nat, bytes: seq<byte>)
    requires Overlaid(t, origs, applied) && t'.Valid() && i < |t.bps| && DiffersAt(t, t', i, bytes)
    requires t.bps[i].task in origs && Consistent(t'.bps[i], t'.MemoryOf(i), origs[t.bps[i].task], i in after)
    requires forall j :: 0 <= j < |t.bps| && j != i ==> (j in after <==> j in applied)
    ensures Overlaid(t', origs, after)
  {
    OutsideUnpatched(t, t', origs, i, bytes);
    hide Consistent, Outside, OriginalOutside, Bp.Placed, Mapped;
    forall j | 0 <= j < |t.bps| ensures ConsistentAt(t', origs, j, j in after) {
      assert ConsistentAt(t, origs, j, j in applied);
      if j != i && t.bps[j].task == t.bps[i].task && t'.mems != t.mems {
        ConsistentElsewhere(t.MemoryOf(i), origs[t.bps[i].task], t.bps[i], bytes, t.bps[j], j in applied);
      }
    }
  }

  lemma ApplyDiffers(t: Target, i: nat, k: Kernel)
    requires t.Valid() && i < |t.bps|
    ensures DiffersAt(t, t.ApplyAt(i, k), i, t.bps[i].kind.Trap())
    ensures t.ApplyAt(i, k).MemoryOf(i) == t.bps[i].ApplyMemory(t.MemoryOf(i), k)
  {
    assert t.mems[t.bps[i].task := t.MemoryOf(i)] == t.mems;
    hide Bp.Placed, Mapped, Patch, Read;
  }

  lemma ResetDiffers(t: Target, i: nat, k: Kernel)
    requires t.Valid() && i < |t.bps| && |t.bps[i].saved| <= t.bps[i].Size()
    ensures DiffersAt(t, t.ResetAt(i, k), i, t.bps[i].saved)
    ensures t.ResetAt(i, k).MemoryOf(i) == t.bps[i].ResetMemory(t.MemoryOf(i), k)
  {
    assert t.mems[t.bps[i].task := t.MemoryOf(i)] == t.mems;
    hide Bp.Placed, Mapped, Patch, Read;
  }

  lemma ApplyKeepsOverlay(t: Target, origs: Memories, applied: set<nat>, i: nat, k: Kernel)
    requires Overlaid(t, origs, applied) && i < |t.bps| && i !in applied
    requires t.bps[i].kind.X64? ==> t.bps[i].saved == []
    ensures Overlaid(t.ApplyAt(i, k), origs, if k.Writes() then applied + {i} else applied)
  {
    var b, mem, t' := t.bps[i], t.MemoryOf(i), t.ApplyAt(i, k);
    assert ConsistentAt(t, origs, i, i in applied);
    ApplyConsistent(b, mem, origs[b.task], k);
    ApplyDiffers(t, i, k);
    hide *;
    StepAtOneKeepsOverlay(t, t', origs, applied, if k.Writes() then applied + {i} else applied, i, b.kind.Trap());
  }

  lemma ResetKeepsOverlay(t: Target, origs: Memories, applied: set<nat>, i: nat, k: Kernel)
    requires Overlaid(t, origs, applied) && i < |t.bps|
    ensures Overlaid(t.ResetAt(i, k), origs, if k.Writes() then applied - {i} else applied)
  {
    var b, mem, t' := t.bps[i], t.MemoryOf(i), t.ResetAt(i, k);
    assert ConsistentAt(t, origs, i, i in applied);
    assert |b.saved| <= b.Size();
    ResetConsistent(b, mem, origs[b.task], i in applied, k);
    ResetDiffers(t, i, k);
    hide *;
    StepAtOneKeepsOverlay(t, t', origs, applied, if k.Writes() then applied - {i} else applied, i, b.saved);
  }

  lemma PushKeepsOverlay(t: Target, origs: Memories, applied: set<nat>, i: nat)
    requires Overlaid(t, origs, applied) && i < |t.bps|
    ensures Overlaid(t.(listed := t.listed + [i]), origs, applied)
  {
    var pushed := t.(listed := t.listed + [i]);
    hide Consistent, Apart, Outside;
    forall j | 0 <= j < |t.bps| ensures ConsistentAt(pushed, origs, j, j in applied) {
      assert ConsistentAt(t, origs, j, j in applied);
    }
  }

  lemma DoKeepsOverlay(t: Target, origs: Memories, applied: set<nat>, c: Command)
    requires Overlaid(t, origs, applied) && c.i < |t.bps|
    requires c.Applies(c.i) ==> c.i !in applied && (t.bps[c.i].kind.X64? ==> t.bps[c.i].saved == [])
    ensures Overlaid(t.Do(c), origs, AppliedAfter(applied, c))
  {
    match c {
      case Install(i, immediate, k) =>
        PushKeepsOverlay(t, origs, applied, i);
        hide Overlaid;
        if immediate {
          ApplyKeepsOverlay(t.(listed := t.listed + [i]), origs, applied, i, k);
          ApplyKeepsOverlay(t, origs, applied, i, k);
        }
      case Enable(i, k) => ApplyKeepsOverlay(t, origs, applied, i, k);
      case Disable(i, k) => ResetKeepsOverlay(t, origs, applied, i, k);
    }
  }

  lemma {:induction false} RunKeepsOverlay(t: Target, origs: Memories, applied: set<nat>, cs: seq<Command>)
    requires Overlaid(t, origs, applied) && InRange(cs, |t.bps|) && Disciplined(t, applied, cs)
    ensures Overlaid(Run(t, cs), origs, AppliedBy(applied, cs))
    decreases |cs|
  {
    if cs != [] {
      DoKeepsOverlay(t, origs, applied, cs[0]);
      RunKeepsOverlay(t.Do(cs[0]), origs, AppliedAfter(applied, cs[0]), cs[1..]);
    }
  }

  lemma UnappliedIsOriginal(b: Bp, mem: Memory, orig: Memory, x: nat)
    requires Consistent(b, mem, orig, false) && b.Covers(x)
    ensures x in mem && x in orig && mem[x] == orig[x]
  {
    assert mem[x] == b.Code(mem)[x - b.address] && orig[x] == b.Code(orig)[x - b.address];
  }

  lemma BareIsOriginal(t: Target, origs: Memories, applied: set<nat>, task: nat, x: nat)
    requires Overlaid(t, origs, applied) && applied == {} && task in origs && x in origs[task]
    ensures t.mems[task][x] == origs[task][x]
  {
    if !Outside(t.bps, task, x) {
      var i :| 0 <= i < |t.bps| && t.bps[i].task == task && t.bps[i].Covers(x);
      assert ConsistentAt(t, origs, i, i in applied);
      UnappliedIsOriginal(t.bps[i], t.mems[task], origs[task], x);
    }
  }

  /** Where nothing is applied, an overlay is the original. */
  lemma NothingOverlaid(t: Target, origs: Memories)
    requires Overlaid(t, origs, {})
    ensures t.mems == origs
  {
    assert SameSpaces(t.mems, origs);
    forall task | task in origs ensures t.mems[task] == origs[task] {
      forall x | x in origs[task] ensures t.mems[task][x] == origs[task][x] {
        BareIsOriginal(t, origs, {}, task, x);
      }
    }
    hide Overlaid;
  }

  /**
   Over any run of Install, Enable and Disable on fresh breakpoints with disjoint
   footprints in any processes, whatever the kernel calls do, memory is the original overlaid
   with the traps of exactly the applied breakpoints; with none applied it is the original.
   */
  lemma RunOverlays(t: Target, cs: seq<Command>)
    requires t.Valid() && Disjoint(t.bps) && InRange(cs, |t.bps|) && Disciplined(t, {}, cs)
    requires forall i :: 0 <= i < |t.bps| ==> t.bps[i].saved == []
    ensures Overlaid(Run(t, cs), t.mems, AppliedBy({}, cs))
    ensures AppliedBy({}, cs) == {} ==> Run(t, cs).mems == t.mems
  {
    RunKeepsOverlay(t, t.mems, {}, cs);
    if AppliedBy({}, cs) == {} { NothingOverlaid(Run(t, cs), t.mems); }
  }

  /** Operations on other breakpoints leave `c` as it is, and its trap in or out. */
  lemma {:induction false} RunElsewhere(t: Target, applied: set<nat>, cs: seq<Command>, c: nat)
    requires t.Valid() && InRange(cs, |t.bps|) && c < |t.bps| && forall j :: 0 <= j < |cs| ==> cs[j].i != c
    ensures Run(t, cs).bps[c] == t.bps[c] && (c in AppliedBy(applied, cs) <==> c in applied)
    decreases |cs|
  {
    if cs != [] {
      RunElsewhere(t.Do(cs[0]), AppliedAfter(applied, cs[0]), cs[1..], c);
    }
  }

  /** One Enable for each number in `order`, as `ks` says. */
  function Enables(order: seq<nat>, ks: seq<Kernel>): (cs: seq<Command>)
    requires |ks| == |order|
    ensures |cs| == |order| && forall j :: 0 <= j < |order| ==> cs[j] == Enable(order[j], ks[j])
  {
    seq(|order|, j requires 0 <= j < |order| => Enable(order[j], ks[j]))
  }

  /** Enabling fresh breakpoints once each is disciplined, in any order and with any writes failing. */
  lemma {:induction false} FreshEnablesAreDisciplined(t: Target, applied: set<nat>, order: seq<nat>, ks: seq<Kernel>)
    requires t.Valid() && |ks| == |order| && forall i, j :: 0 <= i < j < |order| ==> order[i] != order[j]
    requires forall j :: 0 <= j < |order| ==> order[j] < |t.bps| && order[j] !in applied
    requires forall j :: 0 <= j < |order| && t.bps[order[j]].kind.X64? ==> t.bps[order[j]].saved == []
    ensures Disciplined(t, applied, Enables(order, ks))
    decreases |order|
  {
    if order != [] {
      var cs := Enables(order, ks);
      hide Target.Valid, Target.ApplyAt, Bp.Placed;
      DoKeepsOthers(t, cs[0]);
      assert cs[1..] == Enables(order[1..], ks[1..]);
      assert forall j :: 0 <= j < |order[1..]| ==> order[1..][j] == order[j + 1];
      FreshEnablesAreDisciplined(t.Do(cs[0]), AppliedAfter(applied, cs[0]), order[1..], ks[1..]);
    }
  }

  /** Enables the breakpoints first to last, as `ks` says, and disables them last to first. */
  function StackOrder(order: seq<nat>, ks: seq<Kernel>): (cs: seq<Command>)
    requires |ks| == |order|
    ensures |cs| == 2 * |order| && forall j :: 0 <= j < |cs| ==> cs[j].i in order
  {
    if order == [] then []
    else [Enable(order[0], ks[0])] + StackOrder(order[1..], ks[1..]) + [Disable(order[0], SUCCESS)]
  }

  lemma {:induction false} StackOrderIs(order: seq<nat>, ks: seq<Kernel>, j: nat)
    requires |ks| == |order| && j < |order|
    ensures StackOrder(order, ks)[j] == Enable(order[j], ks[j])
    ensures StackOrder(order, ks)[2 * |order| - 1 - j] == Disable(order[j], SUCCESS)
  {
    if j > 0 { StackOrderIs(order[1..], ks[1..], j - 1); }
  }

  lemma PutBack(mems: Memories, task: nat, mem: Memory)
    requires task in mems
    ensures mems[task := mem][task := mems[task]] == mems
  {
  }

  /** A Reset with nothing in between undoes an Apply, whether or not that wrote. */
  lemma ResetUndoesApply(t: Target, t': Target, i: nat, k: Kernel)
    requires t.Valid() && t'.Valid() && i < |t.bps| == |t'.bps| && (t.bps[i].kind.X64? ==> t.bps[i].saved == [])
    requires t'.mems == t.ApplyAt(i, k).mems && t'.bps[i] == t.ApplyAt(i, k).bps[i]
    ensures t'.ResetAt(i, SUCCESS).mems == t.mems
  {
    var b, mem := t.bps[i], t.MemoryOf(i);
    ApplyUndone(b, mem, k);
    PutBack(t.mems, b.task, b.ApplyMemory(mem, k));
    assert t'.bps[i] == b.Applied(mem) && t'.bps[i].task == b.task;
    hide Bp.Placed, Bp.ApplyMemory, Bp.ResetMemory, Bp.Applied, Mapped, Target.Valid;
    assert t'.MemoryOf(i) == b.ApplyMemory(mem, k);
    assert t'.ResetAt(i, SUCCESS).mems == t'.mems[b.task := t'.bps[i].ResetMemory(t'.MemoryOf(i), SUCCESS)];
    hide *;
  }

  /** The outermost Apply and Reset of the stack, and what is between. */
  lemma StackUnfolds(t: Target, i: nat, k: Kernel, inner: seq<Command>)
    requires t.Valid() && i < |t.bps| && InRange(inner, |t.bps|)
    ensures InRange([Enable(i, k)] + inner + [Disable(i, SUCCESS)], |t.bps|)
    ensures Run(t, [Enable(i, k)] + inner + [Disable(i, SUCCESS)])
            == Run(t.ApplyAt(i, k), inner).ResetAt(i, SUCCESS)
  {
    hide Target.Valid, Target.ApplyAt, Target.ResetAt, Run;
    var first, last := Enable(i, k), Disable(i, SUCCESS);
    RunAppends(t, [first] + inner, [last]);
    RunAppends(t, [first], inner);
    RunSingle(t, first);
    RunSingle(Run(t.ApplyAt(i, k), inner), last);
  }

  /**
   Breakpoints of any kinds, in any processes and at any addresses, however they overlap:
   enabled in some order, with any of the writes failing, and disabled in the opposite order,
   they leave memory as it was. An x86-64 breakpoint must not have been applied before.
   */
  lemma {:induction false} StackOrderRestores(t: Target, order: seq<nat>, ks: seq<Kernel>)
    requires t.Valid() && |ks| == |order| && forall i, j :: 0 <= i < j < |order| ==> order[i] != order[j]
    requires forall j :: 0 <= j < |order| ==> order[j] < |t.bps|
    requires forall j :: 0 <= j < |order| && t.bps[order[j]].kind.X64? ==> t.bps[order[j]].saved == []
    ensures InRange(StackOrder(order, ks), |t.bps|) && Run(t, StackOrder(order, ks)).mems == t.mems
    decreases |order|
  {
    if order != [] {
      var i, k, inner := order[0], ks[0], StackOrder(order[1..], ks[1..]);
      hide Target.Valid, Target.ResetAt, Bp.Placed, Bp.Applied, Run;
      var t1 := t.Do(Enable(i, k));
      DoKeepsOthers(t, Enable(i, k));
      assert forall j :: 0 <= j < |order[1..]| ==> order[1..][j] == order[j + 1];
      StackOrderRestores(t1, order[1..], ks[1..]);
      assert forall j :: 0 <= j < |inner| ==> inner[j].i != i;
      RunElsewhere(t1, {}, inner, i);
      StackUnfolds(t, i, k, inner);
      ResetUndoesApply(t, Run(t1, inner), i, k);
    }
  }

  /** One successful Disable for each number in `order`. */
  function Disables(order: seq<nat>): (cs: seq<Command>)
    ensures |cs| == |order| && forall j :: 0 <= j < |order| ==> cs[j] == Disable(order[j], SUCCESS)
  {
    seq(|order|, j requires 0 <= j < |order| => Disable(order[j], SUCCESS))
  }

  lemma {:induction false} DisablesUnapply(t: Target, applied: set<nat>, order: seq<nat>)
    requires t.Valid() && forall j :: 0 <= j < |order| ==> order[j] < |t.bps|
    ensures Disciplined(t, applied, Disables(order))
    ensures AppliedBy(applied, Disables(order)) == applied - set i | i in order
    decreases |order|
  {
    if order != [] {
      var cs := Disables(order);
      assert cs[1..] == Disables(order[1..]);
      DisablesUnapply(t.Do(cs[0]), applied - {order[0]}, order[1..]);
      assert (set i | i in order) == {order[0]} + set i | i in order[1..];
    }
  }

  /**
   From any state of such a run, resetting at least the applied breakpoints, in any order
   and any number of times each, brings the original memory back.
   */
  lemma ResetAllRestores(t: Target, origs: Memories, applied: set<nat>, order: seq<nat>)
    requires Overlaid(t, origs, applied) && forall j :: 0 <= j < |order| ==> order[j] < |t.bps|
    requires applied <= set i | i in order
    ensures Run(t, Disables(order)).mems == origs
  {
    assert t.Valid();
    hide Overlaid;
    DisablesUnapply(t, applied, order);
    assert AppliedBy(applied, Disables(order)) == {};
    RunKeepsOverlay(t, origs, applied, Disables(order));
    NothingOverlaid(Run(t, Disables(order)), origs);
  }

  /**
   A failing Install is off the list again, and leaves memory as it was exactly when its
   write failed or the code was the trap already.
   */
  lemma FailedInstall(t: Target, i: nat, k: Kernel)
    requires t.Valid() && i < |t.bps| && !k.Succeeds()
    ensures t.Do(Install(i, true, k)).listed == t.listed
    ensures t.Do(Install(i, true, k)).mems == t.mems <==>
            !k.Writes() || t.bps[i].Code(t.MemoryOf(i)) == t.bps[i].kind.Trap()
  {
    var b, mem := t.bps[i], t.MemoryOf(i);
    PatchChangesNothing(mem, b.address, b.kind.Trap());
    assert t.mems[b.task := mem] == t.mems;
    assert t.Do(Install(i, true, k)).mems[b.task] == b.ApplyMemory(mem, k);
  }

  // ---------- The class ----------

  const BKPT_ENABLED: bv32 := 1
  const BKPT_DISABLED: bv32 := 2
  const BKPT_ALL: bv32 := BKPT_ENABLED | BKPT_DISABLED

  /** The installed breakpoints an enquiry with `enabled` and `disabled` asks for, in order. */
  function Selected(bps: seq<Bp>, listed: seq<nat>, enabled: bool, disabled: bool): (selected: seq<nat>)
    requires forall l :: 0 <= l < |listed| ==> listed[l] < |bps|
  {
    if listed == [] then []
    else
      var init, i := listed[..|listed| - 1], listed[|listed| - 1];
      Selected(bps, init, enabled, disabled) + if (if bps[i].active then enabled else disabled) then [i] else []
  }

  /** Asking for both flags lists everything, asking for none nothing. */
  lemma {:induction false} SelectAll(bps: seq<Bp>, listed: seq<nat>)
    requires forall l :: 0 <= l < |listed| ==> listed[l] < |bps|
    ensures Selected(bps, listed, true, true) == listed && Selected(bps, listed, false, false) == []
  {
    if listed != [] { SelectAll(bps, listed[..|listed| - 1]); }
  }

  /** The selection keeps the order of the list: that of its parts, one after the other. */
  lemma {:induction false} SelectedAppends(bps: seq<Bp>, first: seq<nat>, rest: seq<nat>, enabled: bool, disabled: bool)
    requires forall l :: 0 <= l < |first| ==> first[l] < |bps|
    requires forall l :: 0 <= l < |rest| ==> rest[l] < |bps|
    ensures forall l :: 0 <= l < |first + rest| ==> (first + rest)[l] < |bps|
    ensures Selected(bps, first + rest, enabled, disabled)
            == Selected(bps, first, enabled, disabled) + Selected(bps, rest, enabled, disabled)
  {
    if rest == [] {
      assert first + rest == first;
    } else {
      var init, last := rest[..|rest| - 1], rest[|rest| - 1];
      assert (first + rest)[..|first + rest| - 1] == first + init;
      SelectedAppends(bps, first, init, enabled, disabled);
    }
  }

  lemma SelectedLast(bps: seq<Bp>, listed: seq<nat>, enabled: bool)
    requires listed != [] && forall l :: 0 <= l < |listed| ==> listed[l] < |bps|
    ensures var init, last := listed[..|listed| - 1], listed[|listed| - 1];
      var before := Selected(bps, init, enabled, !enabled);
      Selected(bps, listed, enabled, !enabled) == if bps[last].active == enabled then before + [last] else before
  {
    var before := Selected(bps, listed[..|listed| - 1], enabled, !enabled);
    assert before + [] == before;
  }

  lemma NoneSelected(bps: seq<Bp>)
    ensures Selected(bps, [], true, false) == [] && Selected(bps, [], false, true) == []
  {
  }

  lemma LastGoesToOne(first: seq<nat>, second: seq<nat>, first': seq<nat>, second': seq<nat>, init: seq<nat>, last: nat)
    requires multiset(first) + multiset(second) == multiset(init)
    requires (first' == first + [last] && second' == second) || (first' == first && second' == second + [last])
    ensures multiset(first') + multiset(second') == multiset(init + [last])
  {
  }

  /** Asking for each flag in turn splits the list in two, by active_, with its repetitions. */
  lemma {:induction false} SelectionPartitions(bps: seq<Bp>, listed: seq<nat>)
    requires forall l :: 0 <= l < |listed| ==> listed[l] < |bps|
    ensures multiset(Selected(bps, listed, true, false)) + multiset(Selected(bps, listed, false, true))
            == multiset(listed)
  {
    hide *;
    if listed == [] {
      NoneSelected(bps);
    } else {
      var init, last := listed[..|listed| - 1], listed[|listed| - 1];
      SelectedLast(bps, listed, true);
      SelectedLast(bps, listed, false);
      SelectionPartitions(bps, init);
      LastGoesToOne(Selected(bps, init, true, false), Selected(bps, init, false, true),
                    Selected(bps, listed, true, false), Selected(bps, listed, false, true), init, last);
      assert listed == init + [last];
    }
  }

  lemma {:induction false} SelectedByActivity(bps: seq<Bp>, listed: seq<nat>, enabled: bool)
    requires forall l :: 0 <= l < |listed| ==> listed[l] < |bps|
    ensures var s := Selected(bps, listed, enabled, !enabled);
      forall j :: 0 <= j < |s| ==> s[j] < |bps| && bps[s[j]].active == enabled
  {
    if listed != [] {
      SelectedByActivity(bps, listed[..|listed| - 1], enabled);
      SelectedLast(bps, listed, enabled);
    }
  }

  class BreakpointHandler {
    /** The processes, by their tasks. */
    const procs: map<nat, Process>
    /** Every breakpoint object there is; the i-th has number i. */
    const all: seq<Breakpoint>
    var breakpoints: seq<Breakpoint>

    ghost predicate Valid()
      reads this, all, procs.Values
    {
      && (forall task :: task in procs ==> procs[task].task == task)
      && (forall i :: 0 <= i < |all| ==>
            all[i].id == i && all[i].proc.task in procs && procs[all[i].proc.task] == all[i].proc)
      && (forall j :: 0 <= j < |breakpoints| ==> breakpoints[j] in all)
      && Value().Valid()
    }

    function Values(): (bps: seq<Bp>)
      reads all
      ensures |bps| == |all|
      ensures forall i :: 0 <= i < |all| ==> bps[i] == all[i].Value()
    {
      seq(|all|, i requires 0 <= i < |all| reads all => all[i].Value())
    }

    function Listed(): (ids: seq<nat>)
      reads this
      ensures |ids| == |breakpoints|
      ensures forall j :: 0 <= j < |ids| ==> ids[j] == breakpoints[j].id
    {
      seq(|breakpoints|, j requires 0 <= j < |breakpoints| reads this => breakpoints[j].id)
    }

    function MemoriesNow(): (mems: Memories)
      reads procs.Values
      ensures mems.Keys == procs.Keys
      ensures forall task :: task in procs ==> mems[task] == procs[task].memory
    {
      map task | task in procs :: procs[task].memory
    }

    function Value(): (value: Target)
      reads this, all, procs.Values
    {
      Target(MemoriesNow(), Values(), Listed())
    }

    constructor (procs: map<nat, Process>, all: seq<Breakpoint>)
      requires forall task :: task in procs ==> procs[task].task == task
      requires forall i :: 0 <= i < |all| ==>
                 && all[i].id == i && all[i].proc.task in procs && procs[all[i].proc.task] == all[i].proc
                 && all[i].Value().Placed(all[i].proc.memory)
      ensures Valid() && this.procs == procs && this.all == all && Value().listed == []
    {
      this.procs, this.all, this.breakpoints := procs, all, [];
    }

    method PushBack(bp: Breakpoint)
      requires Valid() && bp in all
      modifies this
      ensures Valid() && Value() == old(Value()).(listed := old(Listed()) + [bp.id])
      ensures breakpoints == old(breakpoints) + [bp]
    {
      hide Bp.Placed, Mapped;
      breakpoints := breakpoints + [bp];
      assert Listed() == old(Listed()) + [bp.id] && all[bp.id] == bp;
    }

    method PopBack()
      requires Valid() && breakpoints != []
      modifies this
      ensures Valid() && Value() == old(Value()).(listed := old(Listed()[..|breakpoints| - 1]))
      ensures breakpoints == old(breakpoints[..|breakpoints| - 1])
    {
      breakpoints := breakpoints[..|breakpoints| - 1];
      assert Listed() == old(Listed()[..|breakpoints| - 1]);
    }

    /** Takes and returns true for a null breakpoint, too. */
    method InstallBreakpoint(bp: Breakpoint?, immediate: bool, k: Kernel) returns (success: bool)
      requires Valid() && (bp != null ==> bp in all)
      modifies this, all, procs.Values
      ensures Valid()
      ensures bp == null ==> success && Value() == old(Value())
      ensures bp != null ==>
                && success == (!immediate || k.Succeeds())
                && Value() == old(Value().Do(Install(bp.id, immediate, k)))
                && breakpoints == old(breakpoints) + if success then [bp] else []
    {
      success := true;
      if bp != null {
        assert all[bp.id] == bp;
        ghost var t := Value();
        hide Target.Valid, Target.ApplyAt, Bp.Placed, Mapped;
        PushBack(bp);
        if immediate {
          success := EnableBreakpoint(bp, k);
          if !success {
            assert Listed()[..|breakpoints| - 1] == t.listed;
            assert breakpoints[..|breakpoints| - 1] == old(breakpoints);
            PopBack();
          }
        }
      }
    }

    method EnableBreakpoint(bp: Breakpoint, k: Kernel) returns (success: bool)
      requires Valid() && bp in all
      modifies all, procs.Values
      ensures Valid() && success == k.Succeeds() && Value() == old(Value().ApplyAt(bp.id, k))
      ensures breakpoints == old(breakpoints)
    {
      assert all[bp.id] == bp;
      ghost var t := Value();
      success := bp.Apply(k);
      assert Values() == t.bps[bp.id := t.bps[bp.id].Applied(t.MemoryOf(bp.id))];
      assert Value() == t.ApplyAt(bp.id, k);
    }

    method DisableBreakpoint(bp: Breakpoint, k: Kernel) returns (success: bool)
      requires Valid() && bp in all
      modifies all, procs.Values
      ensures Valid() && success == k.Succeeds() && Value() == old(Value().ResetAt(bp.id, k))
      ensures breakpoints == old(breakpoints)
    {
      assert all[bp.id] == bp;
      ghost var t := Value();
      success := bp.Reset(k);
      assert Values() == t.bps[bp.id := t.bps[bp.id].WithoutTrap()];
      assert Value() == t.ResetAt(bp.id, k);
    }

    method BreakpointAtAddress(address: nat) returns (bp: Breakpoint?)
      requires Valid()
      ensures Value().AtAddress(address) == if bp == null then Nowhere else At(bp.id)
      ensures bp != null ==> bp in all
    {
      ghost var t := Value();
      for j := 0 to |breakpoints|
        invariant FirstAt(t.bps, t.listed, address, 0) == FirstAt(t.bps, t.listed, address, j)
      {
        assert breakpoints[j] in all && t.bps[t.listed[j]] == breakpoints[j].Value();
        if breakpoints[j].address == address {
          return breakpoints[j];
        }
      }
      bp := null;
    }

    /** Numbers of the breakpoints the C++ method returns. */
    method Breakpoints(flags: bv32 := BKPT_ALL) returns (local: seq<nat>)
      requires Valid()
      ensures local == Selected(Values(), Listed(), flags & 1 != 0, flags & 2 != 0)
    {
      hide Bp.Placed, Mapped, Target.Valid;
      local := [];
      ghost var bps, listed := Values(), Listed();
      for j := 0 to |breakpoints|
        invariant local == Selected(bps, listed[..j], flags & BKPT_ENABLED != 0, flags & BKPT_DISABLED != 0)
      {
        var bp := breakpoints[j];
        assert bp in all && bps[listed[j]] == bp.Value();
        assert listed[..j + 1][..j] == listed[..j];
        if flags & BKPT_ENABLED != 0 {
          if bp.active { local := local + [bp.id]; }
        }
        if flags & BKPT_DISABLED != 0 {
          if !bp.active { local := local + [bp.id]; }
        }
      }
      assert listed[..|listed|] == listed;
    }

    /** Any sequence of operations, as callers and callbacks perform them. */
    method Perform(cs: seq<Command>)
      requires Valid() && InRange(cs, |all|)
      modifies this, all, procs.Values
      ensures Valid() && Value() == old(Run(Value(), cs))
    {
      ghost var t := Value();
      hide Target.ApplyAt, Target.ResetAt, Target.Valid, Bp.Placed, Mapped;
      for j := 0 to |cs|
        invariant Valid() && Run(t, cs) == Run(Value(), cs[j..])
      {
        assert cs[j..][1..] == cs[j + 1..];
        match cs[j] {
          case Install(i, immediate, k) => var _ := InstallBreakpoint(all[i], immediate, k);
          case Enable(i, k) => var _ := EnableBreakpoint(all[i], k);
          case Disable(i, k) => var _ := DisableBreakpoint(all[i], k);
        }
      }
    }
  }
}
