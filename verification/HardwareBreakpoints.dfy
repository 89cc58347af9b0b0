/** x86-64 hardware breakpoints: debug register slots of a list of threads. */
module HardwareBreakpoints {
  // ---------- DR7 ----------

  type u32 = x: int | 0 <= x < 0x1_0000_0000
  type u64 = x: int | 0 <= x < 0x1_0000_0000_0000_0000
  type Flags = s: seq<nat> | |s| == 4 && forall j :: 0 <= j < 4 ==> s[j] < 4 witness [0, 0, 0, 0]

  /**
   struct dr7_ctx: the two flag bits of each slot, bit 0 of them the local enable and bit 1
   the global one, and the three bytes of unused, trigger and size bits above.
   */
  datatype Dr7Ctx = Dr7Ctx(flags: Flags, rest: nat) {
    ghost predicate Valid() { rest < 0x100_0000 }

    /** flags_dr<j> |= 0x1; the trigger and size bits are or-ed with zero. */
    function Arm(j: nat): (edited: Dr7Ctx)
      requires j < 4
    {
      this.(flags := flags[j := flags[j] / 2 * 2 + 1])
    }

    /** flags_dr<j> = 0. */
    function Disarm(j: nat): (edited: Dr7Ctx)
      requires j < 4
    {
      this.(flags := flags[j := 0])
    }

    /** The struct as a 32-bit integer. */
    function Bits(): (v: u32)
      requires Valid()
    {
      flags[0] + 4 * (flags[1] + 4 * (flags[2] + 4 * (flags[3] + 4 * rest)))
    }
  }

  /** The struct made from the low half of a register. */
  function Load(dr7: u64): (c: Dr7Ctx)
    ensures c.Valid()
  {
    FromBits(dr7 % 0x1_0000_0000)
  }

  function FromBits(v: u32): (c: Dr7Ctx)
    ensures c.Valid()
  {
    Dr7Ctx([v % 4, Shifted(v, 1) % 4, Shifted(v, 2) % 4, Shifted(v, 3) % 4], Shifted(v, 3) / 4)
  }

  /** `v` shifted right by 2j bits. */
  function Shifted(v: u32, j: nat): (w: u32)
    requires j < 4
  {
    match j
    case 0 => v
    case 1 => v / 4
    case 2 => v / 4 / 4
    case _ => v / 4 / 4 / 4
  }

  /** The struct on its way back through `operator int`: sign-extended to 64 bits. */
  function Store(c: Dr7Ctx): (dr7: u64)
    requires c.Valid()
  {
    if c.Bits() < 0x8000_0000 then c.Bits() else c.Bits() + 0xFFFF_FFFF * 0x1_0000_0000
  }

  function ArmRegister(dr7: u64, j: nat): (edited: u64)
    requires j < 4
  {
    Store(Load(dr7).Arm(j))
  }

  function DisarmRegister(dr7: u64, j: nat): (edited: u64)
    requires j < 4
  {
    Store(Load(dr7).Disarm(j))
  }

  predicate Enabled(dr7: u64, j: nat)
    requires j < 4
  {
    Load(dr7).flags[j] != 0
  }

  lemma LowDigit(low: nat, high: nat)
    requires low < 4
    ensures (low + 4 * high) % 4 == low && (low + 4 * high) / 4 == high
  {
  }

  lemma BitsLoaded(c: Dr7Ctx)
    requires c.Valid()
    ensures FromBits(c.Bits()) == c
  {
    var f := c.flags;
    var d := f[3] + 4 * c.rest;
    var e := f[2] + 4 * d;
    var g := f[1] + 4 * e;
    LowDigit(f[3], c.rest);
    LowDigit(f[2], d);
    LowDigit(f[1], e);
    LowDigit(f[0], g);
    assert FromBits(c.Bits()).flags == f;
  }

  lemma HighHalf(low: u32, high: nat)
    ensures (low + high * 0x1_0000_0000) % 0x1_0000_0000 == low && (low + high * 0x1_0000_0000) / 0x1_0000_0000 == high
  {
  }

  /** Nothing of the struct is lost in the register, and the upper half is the sign of the lower. */
  lemma StoredIsLoaded(c: Dr7Ctx)
    requires c.Valid()
    ensures Load(Store(c)) == c
    ensures Store(c) / 0x1_0000_0000 == if c.Bits() >= 0x8000_0000 then 0xFFFF_FFFF else 0
  {
    BitsLoaded(c);
    hide FromBits, Dr7Ctx.Bits;
    HighHalf(c.Bits(), 0);
    HighHalf(c.Bits(), 0xFFFF_FFFF);
  }

  lemma EditsLoaded(dr7: u64, j: nat)
    requires j < 4
    ensures Load(ArmRegister(dr7, j)) == Load(dr7).Arm(j)
    ensures Load(DisarmRegister(dr7, j)) == Load(dr7).Disarm(j)
  {
    StoredIsLoaded(Load(dr7).Arm(j));
    StoredIsLoaded(Load(dr7).Disarm(j));
  }

  /** Arming enables a slot, disarming disables it, and neither changes another slot's flags. */
  lemma EditsAreLocal(dr7: u64, j: nat, l: nat)
    requires j < 4 && l < 4
    ensures Enabled(ArmRegister(dr7, j), l) == (l == j || Enabled(dr7, l))
    ensures Enabled(DisarmRegister(dr7, j), l) == (l != j && Enabled(dr7, l))
    ensures l != j ==> Load(ArmRegister(dr7, j)).flags[l] == Load(DisarmRegister(dr7, j)).flags[l] == Load(dr7).flags[l]
    ensures Load(ArmRegister(dr7, j)).rest == Load(DisarmRegister(dr7, j)).rest == Load(dr7).rest
    ensures Load(ArmRegister(dr7, j)).flags[j] / 2 == Load(dr7).flags[j] / 2
    ensures Load(DisarmRegister(dr7, j)).flags[j] == 0
  {
    EditsLoaded(dr7, j);
    hide Load, ArmRegister, DisarmRegister;
  }

  lemma BitsDetermine(c: Dr7Ctx, d: Dr7Ctx)
    requires c.Valid() && d.Valid() && c.Bits() == d.Bits()
    ensures c == d
  {
    BitsLoaded(c);
    BitsLoaded(d);
  }

  lemma LoadedBits(dr7: u64)
    ensures Load(dr7).Bits() == dr7 % 0x1_0000_0000
  {
    var v: u32 := dr7 % 0x1_0000_0000;
    var w := v / 4;
    var x := w / 4;
    var y := x / 4;
    assert v == v % 4 + 4 * w && w == w % 4 + 4 * x && x == x % 4 + 4 * y && y == y % 4 + 4 * (y / 4);
  }

  /** The weight of bit 2j, slot j's local enable bit; the global one is the next. */
  function Weight(j: nat): (w: nat)
    requires j < 4
  {
    match j
    case 0 => 1
    case 1 => 4
    case 2 => 16
    case _ => 64
  }

  lemma Parity(x: nat)
    ensures x % 4 % 2 == x % 2
  {
    var q, r := x / 4, x % 4;
    assert x == 2 * (2 * q) + r;
  }

  lemma FlagsByShift(v: u32, j: nat)
    requires j < 4
    ensures FromBits(v).flags[j] == Shifted(v, j) % 4 && FromBits(v).flags[j] % 2 == Shifted(v, j) % 2
  {
    assert FromBits(v).flags == [Shifted(v, 0) % 4, Shifted(v, 1) % 4, Shifted(v, 2) % 4, Shifted(v, 3) % 4];
    hide FromBits, Shifted;
    Parity(Shifted(v, j));
  }

  lemma ArmedBits(c: Dr7Ctx, j: nat)
    requires c.Valid() && j < 4
    ensures c.Arm(j).Bits() == c.Bits() + if c.flags[j] % 2 == 1 then 0 else Weight(j)
  {
    var f := c.flags[j];
    assert f / 2 * 2 + 1 == f + if f % 2 == 1 then 0 else 1;
  }

  lemma DisarmedBits(c: Dr7Ctx, j: nat)
    requires c.Valid() && j < 4
    ensures c.Disarm(j).Bits() == c.Bits() - Weight(j) * c.flags[j]
  {
  }

  lemma EditsByWeight(dr7: u64, j: nat)
    requires j < 4
    ensures var low, w := dr7 % 0x1_0000_0000, Weight(j);
      && ArmRegister(dr7, j) % 0x1_0000_0000 == low + (if Shifted(low, j) % 2 == 1 then 0 else w)
      && DisarmRegister(dr7, j) % 0x1_0000_0000 == low - w * (Shifted(low, j) % 4)
  {
    EditsLoaded(dr7, j);
    LoadedBits(dr7);
    LoadedBits(ArmRegister(dr7, j));
    LoadedBits(DisarmRegister(dr7, j));
    FlagsByShift(dr7 % 0x1_0000_0000, j);
    ArmedBits(Load(dr7), j);
    DisarmedBits(Load(dr7), j);
    hide FromBits, Shifted, Store, ArmRegister, DisarmRegister, Dr7Ctx.Bits, Dr7Ctx.Arm, Dr7Ctx.Disarm, Weight;
  }

  lemma ShiftedIsQuotient(v: u32)
    ensures Shifted(v, 0) == v && Shifted(v, 1) == v / 4 && Shifted(v, 2) == v / 16 && Shifted(v, 3) == v / 64
  {
  }

  /** Arming sets bit 2j of the low half; disarming clears bits 2j and 2j + 1. */
  lemma EditsByBit(dr7: u64, j: nat)
    requires j < 4
    ensures var low, w := dr7 % 0x1_0000_0000, if j == 0 then 1 else if j == 1 then 4 else if j == 2 then 16 else 64;
      && ArmRegister(dr7, j) % 0x1_0000_0000 == low + (if low / w % 2 == 1 then 0 else w)
      && DisarmRegister(dr7, j) % 0x1_0000_0000 == low - w * (low / w % 4)
      && (Enabled(dr7, j) <==> low / w % 4 != 0)
  {
    EditsByWeight(dr7, j);
    ShiftedIsQuotient(dr7 % 0x1_0000_0000);
    FlagsByShift(dr7 % 0x1_0000_0000, j);
    hide FromBits, Shifted, ArmRegister, DisarmRegister;
  }

  /**
   Arming and then disarming a slot gives the low half of the register back exactly when
   both of the slot's flags were clear. The upper half becomes the sign of the lower
   whatever it was, so the whole register comes back exactly when, besides, it was a sign
   extension.
   */
  lemma ArmDisarm(dr7: u64, j: nat)
    requires j < 4
    ensures var d := DisarmRegister(ArmRegister(dr7, j), j);
      && (d % 0x1_0000_0000 == dr7 % 0x1_0000_0000 <==> !Enabled(dr7, j))
      && d / 0x1_0000_0000 == (if d % 0x1_0000_0000 >= 0x8000_0000 then 0xFFFF_FFFF else 0)
  {
    var c, d := Load(dr7), DisarmRegister(ArmRegister(dr7, j), j);
    EditsLoaded(dr7, j);
    assert c.Arm(j).Disarm(j) == c.Disarm(j);
    StoredIsLoaded(c.Disarm(j));
    LoadedBits(d);
    LoadedBits(dr7);
    hide Load, Store, ArmRegister, Dr7Ctx.Bits;
    if d % 0x1_0000_0000 == dr7 % 0x1_0000_0000 {
      BitsDetermine(c.Disarm(j), c);
      assert c.flags[j] == c.Disarm(j).flags[j] == 0;
    }
    if !Enabled(dr7, j) { assert c.Disarm(j).flags == c.flags; }
  }

  /** Edits of different slots commute. */
  lemma EditsCommute(dr7: u64, j: nat, l: nat)
    requires j < 4 && l < 4 && j != l
    ensures ArmRegister(ArmRegister(dr7, j), l) == ArmRegister(ArmRegister(dr7, l), j)
    ensures DisarmRegister(DisarmRegister(dr7, j), l) == DisarmRegister(DisarmRegister(dr7, l), j)
    ensures ArmRegister(DisarmRegister(dr7, j), l) == DisarmRegister(ArmRegister(dr7, l), j)
  {
    EditsLoaded(dr7, j);
    EditsLoaded(dr7, l);
    StructEditsCommute(Load(dr7), j, l);
    hide Load, Store, Dr7Ctx.Arm, Dr7Ctx.Disarm;
  }

  lemma StructEditsCommute(c: Dr7Ctx, j: nat, l: nat)
    requires j < 4 && l < 4 && j != l
    ensures c.Arm(j).Arm(l) == c.Arm(l).Arm(j)
    ensures c.Disarm(j).Disarm(l) == c.Disarm(l).Disarm(j)
    ensures c.Disarm(j).Arm(l) == c.Arm(l).Disarm(j)
  {
    assert c.Arm(j).Arm(l).flags == c.Arm(l).Arm(j).flags;
    assert c.Disarm(j).Disarm(l).flags == c.Disarm(l).Disarm(j).flags;
    assert c.Disarm(j).Arm(l).flags == c.Arm(l).Disarm(j).flags;
  }

  // ---------- Threads ----------

  type Slots = s: seq<nat> | |s| == 4 witness [0, 0, 0, 0]

  /** The debug state of a thread: DR0 to DR3, and DR7. */
  datatype DebugState = DebugState(dr: Slots, dr7: u64) {
    function Armed(j: nat, address: nat): (armed: DebugState)
      requires j < 4
    {
      DebugState(dr[j := address], ArmRegister(dr7, j))
    }

    /** The last slot that holds `address`, or -1. */
    function SlotOf(address: nat): (j: int)
      ensures -1 <= j < 4
      ensures j >= 0 ==> dr[j] == address
      ensures forall l :: j < l < 4 ==> dr[l] != address
    {
      if dr[3] == address then 3
      else if dr[2] == address then 2
      else if dr[1] == address then 1
      else if dr[0] == address then 0
      else -1
    }

    function Cleared(address: nat): (cleared: DebugState) {
      if SlotOf(address) == -1 then this else this.(dr7 := DisarmRegister(dr7, SlotOf(address)))
    }

    /** A slot that traps at `address`. */
    predicate Traps(address: nat, j: nat)
      requires j < 4
    {
      dr[j] == address && Enabled(dr7, j)
    }
  }

  /** How many of `n` threads Apply gets through when it starts at slot `k`. */
  function ArmedCount(n: nat, k: int): (m: nat)
    ensures m <= n && (m > 0 ==> 0 <= k && k + m <= 4)
    ensures 0 <= k ==> (m == n <==> n == 0 || k + n <= 4)
  {
    if k < 0 || k > 3 then 0 else if n <= 4 - k then n else 4 - k
  }

  /** The first threads each get the next slot, the rest nothing. */
  function ArmAll(ts: seq<DebugState>, k: int, address: nat): (r: seq<DebugState>)
    ensures |r| == |ts|
    ensures forall i :: 0 <= i < |ts| ==>
              r[i] == if i < ArmedCount(|ts|, k) then ts[i].Armed(k + i, address) else ts[i]
  {
    seq(|ts|, i requires 0 <= i < |ts| => if i < ArmedCount(|ts|, k) then ts[i].Armed(k + i, address) else ts[i])
  }

  function ClearAll(ts: seq<DebugState>, address: nat): (r: seq<DebugState>)
    ensures |r| == |ts| && forall i :: 0 <= i < |ts| ==> r[i] == ts[i].Cleared(address)
  {
    seq(|ts|, i requires 0 <= i < |ts| => ts[i].Cleared(address))
  }

  predicate SomeHolds(ts: seq<DebugState>, address: nat) {
    exists i :: 0 <= i < |ts| && ts[i].SlotOf(address) != -1
  }

  class HardwareBreakpoint {
    const address: nat
    var inUse: int
    var active: bool

    /** in_use_ and active_ start as whatever the memory held. */
    constructor (address: nat, inUse: int, active: bool)
      ensures this.address == address && this.inUse == inUse && this.active == active
    {
      this.address, this.inUse, this.active := address, inUse, active;
    }

    /** The switch of Apply: edits a loaded state, unless all slots are in use. */
    method ArmThread(state: DebugState) returns (armed: bool, debug: DebugState)
      ensures armed == (0 <= inUse < 4)
      ensures debug == if armed then state.Armed(inUse, address) else state
    {
      debug := state;
      var dr7 := Load(debug.dr7);
      match inUse {
        case 0 => dr7 := dr7.Arm(0); debug := debug.(dr := debug.dr[0 := address]);
        case 1 => dr7 := dr7.Arm(1); debug := debug.(dr := debug.dr[1 := address]);
        case 2 => dr7 := dr7.Arm(2); debug := debug.(dr := debug.dr[2 := address]);
        case 3 => dr7 := dr7.Arm(3); debug := debug.(dr := debug.dr[3 := address]);
        case _ => return false, debug;
      }
      debug := debug.(dr7 := Store(dr7));
      armed := true;
    }

    /**
     `threads` are the debug states the kernel keeps for the process's other threads; each
     turn of the loop loads one, edits it and saves it, unless all slots are in use.
     */
    method Apply(threads: array<DebugState>) returns (success: bool)
      modifies this, threads
      ensures threads[..] == ArmAll(old(threads[..]), old(inUse), address)
      ensures inUse == old(inUse) + ArmedCount(threads.Length, old(inUse))
      ensures active == (old(active) || ArmedCount(threads.Length, old(inUse)) > 0)
      ensures success == (ArmedCount(threads.Length, old(inUse)) == threads.Length)
    {
      hide DebugState.Armed;
      ghost var m := ArmedCount(threads.Length, inUse);
      for i := 0 to threads.Length
        invariant i <= m && inUse == old(inUse) + i && active == (old(active) || i > 0)
        invariant forall l :: 0 <= l < i ==> threads[l] == old(threads[l]).Armed(old(inUse) + l, address)
        invariant forall l :: i <= l < threads.Length ==> threads[l] == old(threads[l])
      {
        var armed, debug := ArmThread(threads[i]);
        if !armed {
          return false;
        }
        inUse := inUse + 1;
        active := true;
        threads[i] := debug;
      }
      success := true;
    }

    /** The search of Reset. */
    method FindSlot(debug: DebugState) returns (index: int)
      ensures index == debug.SlotOf(address)
    {
      index := -1;
      if debug.dr[0] == address { index := 0; }
      if debug.dr[1] == address { index := 1; }
      if debug.dr[2] == address { index := 2; }
      if debug.dr[3] == address { index := 3; }
    }

    method Reset(threads: array<DebugState>) returns (success: bool)
      modifies this, threads
      ensures success && inUse == old(inUse)
      ensures threads[..] == ClearAll(old(threads[..]), address)
      ensures active == (old(active) && !old(SomeHolds(threads[..], address)))
    {
      hide DebugState.SlotOf, DebugState.Cleared;
      ghost var ts := threads[..];
      for i := 0 to threads.Length
        invariant inUse == old(inUse) && active == (old(active) && !SomeHolds(ts[..i], address))
        invariant forall l :: 0 <= l < i ==> threads[l] == ts[l].Cleared(address)
        invariant forall l :: i <= l < threads.Length ==> threads[l] == ts[l]
      {
        assert ts[..i + 1] == ts[..i] + [ts[i]];
        var debug := threads[i];
        var index := FindSlot(debug);
        ClearedSlot(debug, address);
        if index != -1 {
          assert ts[..i + 1][i].SlotOf(address) != -1;
          debug := debug.(dr7 := Store(Load(debug.dr7).Disarm(index)));
          active := false;
          threads[i] := debug;
        }
      }
      assert ts[..threads.Length] == ts;
      success := true;
    }
  }

  /** Clearing disarms the slot found, if there is one. */
  lemma ClearedSlot(s: DebugState, address: nat)
    ensures s.SlotOf(address) == -1 ==> s.Cleared(address) == s
    ensures s.SlotOf(address) != -1 ==>
              s.Cleared(address) == s.(dr7 := Store(Load(s.dr7).Disarm(s.SlotOf(address))))
  {
  }

  /** Arming a slot sets its address register and the enable bit, and touches no other register or flag. */
  lemma ArmedTouchesOneSlot(s: DebugState, j: nat, address: nat, l: nat)
    requires j < 4 && l < 4
    ensures var armed := s.Armed(j, address);
      && armed.dr[l] == (if l == j then address else s.dr[l])
      && Enabled(armed.dr7, l) == (l == j || Enabled(s.dr7, l))
  {
    EditsAreLocal(s.dr7, j, l);
    hide Enabled, ArmRegister, DisarmRegister;
  }

  /** Resetting changes no address register, and clears the flags of the last slot with the address only. */
  lemma ClearedTouchesOneSlot(s: DebugState, address: nat, l: nat)
    requires l < 4
    ensures var cleared := s.Cleared(address);
      && cleared.dr == s.dr
      && Enabled(cleared.dr7, l) ==
         (Enabled(s.dr7, l) && !(s.dr[l] == address && forall i :: l < i < 4 ==> s.dr[i] != address))
  {
    hide Enabled, ArmRegister, DisarmRegister;
    var j := s.SlotOf(address);
    if j != -1 { EditsAreLocal(s.dr7, j, l); }
    if l < j { assert s.dr[j] == address; }
  }

  // ---------- Cycles ----------

  /**
   Before an Apply at slot `k`: the address is only in slots below, left over from earlier
   cycles, and none of them is enabled.
   */
  ghost predicate Quiet(ts: seq<DebugState>, k: int, address: nat) {
    forall i, j :: 0 <= i < |ts| && 0 <= j < 4 && ts[i].dr[j] == address ==> j < k && !Enabled(ts[i].dr7, j)
  }

  ghost predicate NoneTraps(ts: seq<DebugState>, address: nat) {
    forall i, j :: 0 <= i < |ts| && 0 <= j < 4 ==> !ts[i].Traps(address, j)
  }

  /** One thread: armed above all its leftovers, it is found there again and ends up quiet. */
  lemma ArmedSlotIsFound(s: DebugState, j: nat, address: nat)
    requires j < 4 && forall l :: 0 <= l < 4 && s.dr[l] == address ==> l < j && !Enabled(s.dr7, l)
    ensures s.Armed(j, address).SlotOf(address) == j && s.Armed(j, address).Traps(address, j)
    ensures var c := s.Armed(j, address).Cleared(address);
      forall l :: 0 <= l < 4 && c.dr[l] == address ==> l <= j && !Enabled(c.dr7, l)
  {
    hide Enabled, ArmRegister, DisarmRegister;
    var a := s.Armed(j, address);
    assert a.SlotOf(address) == j;
    forall l | 0 <= l < 4 ensures l == j || s.dr[l] == address ==> !Enabled(a.Cleared(address).dr7, l) {
      EditsAreLocal(s.dr7, j, l);
      EditsAreLocal(a.dr7, j, l);
    }
    EditsAreLocal(s.dr7, j, j);
  }

  /** One thread that was not reached. */
  lemma QuietStaysQuiet(s: DebugState, address: nat)
    requires forall l :: 0 <= l < 4 && s.dr[l] == address ==> !Enabled(s.dr7, l)
    ensures var c := s.Cleared(address);
      forall l :: 0 <= l < 4 && c.dr[l] == address ==> !Enabled(c.dr7, l)
  {
    hide Enabled, ArmRegister, DisarmRegister;
    forall l | 0 <= l < 4 && s.dr[l] == address ensures !Enabled(s.Cleared(address).dr7, l) {
      EditsAreLocal(s.dr7, s.SlotOf(address), l);
    }
  }

  /**
   Apply and then Reset, whether or not Apply got through all threads: each thread reached
   has its new slot armed in between, that slot is the one Reset finds, and afterwards
   nothing traps at the address.
   */
  lemma CycleIsQuiet(ts: seq<DebugState>, k: int, address: nat)
    requires Quiet(ts, k, address)
    ensures var m, armed := ArmedCount(|ts|, k), ArmAll(ts, k, address);
      && (forall i :: 0 <= i < m ==> armed[i].SlotOf(address) == k + i && armed[i].Traps(address, k + i))
      && Quiet(ClearAll(armed, address), k + m, address) && NoneTraps(ClearAll(armed, address), address)
  {
    var m, armed := ArmedCount(|ts|, k), ArmAll(ts, k, address);
    var cleared := ClearAll(armed, address);
    hide Enabled, ArmRegister, DisarmRegister;
    forall i | 0 <= i < |ts|
      ensures i < m ==> armed[i].SlotOf(address) == k + i && armed[i].Traps(address, k + i)
      ensures forall j :: 0 <= j < 4 && cleared[i].dr[j] == address ==> j < k + m && !Enabled(cleared[i].dr7, j)
    {
      if i < m { ArmedSlotIsFound(ts[i], k + i, address); } else { QuietStaysQuiet(ts[i], address); }
    }
  }

  /** The threads and in_use_ after `n` cycles of Apply and Reset. */
  function ThreadCycles(ts: seq<DebugState>, k: int, address: nat, n: nat): (r: (seq<DebugState>, int))
    ensures |r.0| == |ts|
  {
    if n == 0 then (ts, k)
    else
      var (ts', k') := ThreadCycles(ts, k, address, n - 1);
      (ClearAll(ArmAll(ts', k', address), address), k' + ArmedCount(|ts|, k'))
  }

  /**
   Over any number of cycles on threads that did not hold the address, from any in_use_: no
   thread is left trapping, and as in_use_ only grows, the next Apply arms slots above all
   earlier ones, which are the ones its Reset finds.
   */
  lemma {:induction false} CyclesAreQuiet(ts: seq<DebugState>, k: int, address: nat, n: nat)
    requires Quiet(ts, k, address)
    ensures var (ts', k') := ThreadCycles(ts, k, address, n);
      && Quiet(ts', k', address) && NoneTraps(ts', address) && k <= k'
      && forall i :: 0 <= i < ArmedCount(|ts|, k') ==>
           ArmAll(ts', k', address)[i].SlotOf(address) == k' + i && ArmAll(ts', k', address)[i].Traps(address, k' + i)
  {
    hide DebugState.Armed, DebugState.Cleared, Enabled;
    if n > 0 {
      CyclesAreQuiet(ts, k, address, n - 1);
      var (before, j) := ThreadCycles(ts, k, address, n - 1);
      CycleIsQuiet(before, j, address);
    }
    var (ts', k') := ThreadCycles(ts, k, address, n);
    CycleIsQuiet(ts', k', address);
  }

  /** Slots are used up for good: Reset gives none back. */
  lemma {:induction false} CyclesUseUpSlots(ts: seq<DebugState>, k: int, address: nat, n: nat)
    requires 0 <= k <= 4
    ensures ThreadCycles(ts, k, address, n).1 == if k + n * |ts| <= 4 then k + n * |ts| else 4
  {
    if n > 0 {
      CyclesUseUpSlots(ts, k, address, n - 1);
      assert n * |ts| == (n - 1) * |ts| + |ts|;
    }
  }

  /** So after n cycles the next Apply succeeds exactly while in_use_ and n + 1 slots a thread make at most 4. */
  lemma ApplySucceedsAfter(ts: seq<DebugState>, k: int, address: nat, n: nat)
    requires 0 <= k <= 4
    ensures ArmedCount(|ts|, ThreadCycles(ts, k, address, n).1) == |ts| <==> |ts| == 0 || k + (n + 1) * |ts| <= 4
  {
    CyclesUseUpSlots(ts, k, address, n);
    assert (n + 1) * |ts| == n * |ts| + |ts|;
  }

  /** Threads that do not hold the address are quiet for any in_use_. */
  lemma NotHeldIsQuiet(ts: seq<DebugState>, k: int, address: nat)
    ensures !SomeHolds(ts, address) ==> Quiet(ts, k, address)
  {
  }

  /** Applied twice in a row on threads that do not hold the address, then reset once. */
  function AppliedTwice(ts: seq<DebugState>, k: int, address: nat): (left: seq<DebugState>) {
    ClearAll(ArmAll(ArmAll(ts, k, address), k + ArmedCount(|ts|, k), address), address)
  }

  /** The thread armed in two slots keeps trapping in the first. */
  lemma FirstSlotKeepsTrapping(s: DebugState, j: nat, l: nat, address: nat)
    requires j < l < 4 && forall i :: 0 <= i < 4 ==> s.dr[i] != address
    ensures s.Armed(j, address).Armed(l, address).Cleared(address).Traps(address, j)
  {
    hide Enabled, ArmRegister, DisarmRegister;
    var once := s.Armed(j, address);
    var twice := once.Armed(l, address);
    assert twice.SlotOf(address) == l;
    EditsAreLocal(s.dr7, j, j);
    EditsAreLocal(once.dr7, l, j);
    EditsAreLocal(twice.dr7, l, j);
  }

  /**
   Apply, Apply, Reset leaves a thread trapping exactly when the second Apply still found
   a slot, which a caller can tell beforehand from in_use_ and the number of threads.
   */
  lemma AppliedTwiceLeaks(ts: seq<DebugState>, k: int, address: nat)
    requires !SomeHolds(ts, address)
    ensures !NoneTraps(AppliedTwice(ts, k, address), address) <==> |ts| > 0 && 0 <= k && k + |ts| <= 3
  {
    var once := ArmAll(ts, k, address);
    var twice := ArmAll(once, k + ArmedCount(|ts|, k), address);
    if |ts| > 0 && 0 <= k && k + |ts| <= 3 {
      assert ts[0].SlotOf(address) == -1;
      FirstSlotKeepsTrapping(ts[0], k, k + |ts|, address);
      assert AppliedTwice(ts, k, address)[0].Traps(address, k);
    } else {
      assert twice == once;
      NotHeldIsQuiet(ts, k, address);
      CycleIsQuiet(ts, k, address);
    }
  }

  // ---------- Two breakpoints ----------

  /** `first` applied with in_use_ at k1, then `second` with in_use_ at k2, to the same threads. */
  function BothApplied(ts: seq<DebugState>, k1: int, first: nat, k2: int, second: nat): (r: seq<DebugState>)
    ensures |r| == |ts|
  {
    ArmAll(ArmAll(ts, k1, first), k2, second)
  }

  /**
   in_use_ belongs to each breakpoint, not to the slots: of two breakpoints with different
   addresses the second always traps, the first keeps trapping exactly when they started
   at different slots.
   */
  lemma BothTrapIffStartsDiffer(ts: seq<DebugState>, k1: int, first: nat, k2: int, second: nat, i: nat)
    requires first != second && i < |ts|
    ensures i < ArmedCount(|ts|, k2) ==> BothApplied(ts, k1, first, k2, second)[i].Traps(second, k2 + i)
    ensures i < ArmedCount(|ts|, k1) ==>
              (BothApplied(ts, k1, first, k2, second)[i].Traps(first, k1 + i) <==> k1 != k2)
  {
    hide Enabled, ArmRegister;
    var once := ArmAll(ts, k1, first);
    if i < ArmedCount(|ts|, k1) {
      EditsAreLocal(ts[i].dr7, k1 + i, k1 + i);
    }
    if i < ArmedCount(|ts|, k2) {
      EditsAreLocal(once[i].dr7, k2 + i, k2 + i);
      if i < ArmedCount(|ts|, k1) { EditsAreLocal(once[i].dr7, k2 + i, k1 + i); }
    }
  }

  /** The first started at the same slot as the second, whose Apply has taken over: its Reset finds nothing. */
  lemma SecondBreakpointTakesOver(ts: seq<DebugState>, k: int, first: nat, second: nat)
    requires first != second && !SomeHolds(ts, first)
    ensures !SomeHolds(BothApplied(ts, k, first, k, second), first)
    ensures ClearAll(BothApplied(ts, k, first, k, second), first) == BothApplied(ts, k, first, k, second)
  {
    var both := BothApplied(ts, k, first, k, second);
    forall i | 0 <= i < |ts| ensures both[i].SlotOf(first) == -1 {
      assert ts[i].SlotOf(first) == -1;
    }
  }

  /** Resetting one address disturbs no trap at another. */
  lemma ClearedKeepsOthers(s: DebugState, cleared: nat, other: nat, j: nat)
    requires cleared != other && j < 4
    ensures s.Cleared(cleared).Traps(other, j) == s.Traps(other, j)
  {
    hide Enabled, DisarmRegister;
    if s.SlotOf(cleared) != -1 && s.SlotOf(cleared) != j {
      EditsAreLocal(s.dr7, s.SlotOf(cleared), j);
    }
  }

  /**
   Started at different slots they are independent to the end: either Reset takes away its
   own traps and leaves the other's.
   */
  lemma ResetsAreIndependent(ts: seq<DebugState>, k1: int, first: nat, k2: int, second: nat, i: nat)
    requires first != second && k1 != k2 && i < |ts| && !SomeHolds(ts, first) && !SomeHolds(ts, second)
    ensures var both := BothApplied(ts, k1, first, k2, second);
      && (i < ArmedCount(|ts|, k2) ==> ClearAll(both, first)[i].Traps(second, k2 + i))
      && (i < ArmedCount(|ts|, k1) ==> ClearAll(both, second)[i].Traps(first, k1 + i))
      && (forall j :: 0 <= j < 4 ==>
            !ClearAll(both, first)[i].Traps(first, j) && !ClearAll(both, second)[i].Traps(second, j))
  {
    hide Enabled, ArmRegister, DisarmRegister;
    BothTrapIffStartsDiffer(ts, k1, first, k2, second, i);
    var both := BothApplied(ts, k1, first, k2, second);
    assert ts[i].SlotOf(first) == -1 && ts[i].SlotOf(second) == -1;
    if i < ArmedCount(|ts|, k1) { ClearedKeepsOthers(both[i], second, first, k1 + i); }
    if i < ArmedCount(|ts|, k2) { ClearedKeepsOthers(both[i], first, second, k2 + i); }
    OnlySlotCleared(both[i], first, k1 + i);
    OnlySlotCleared(both[i], second, k2 + i);
  }

  /** An address in one slot at most is cleared altogether. */
  lemma OnlySlotCleared(s: DebugState, address: nat, slot: int)
    requires forall j :: 0 <= j < 4 && s.dr[j] == address ==> j == slot
    ensures forall j :: 0 <= j < 4 ==> !s.Cleared(address).Traps(address, j)
  {
    hide Enabled, DisarmRegister;
    if 0 <= slot < 4 && s.dr[slot] == address {
      assert s.SlotOf(address) == slot;
      EditsAreLocal(s.dr7, slot, slot);
    }
  }
}
