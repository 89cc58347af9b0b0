/**
 Software breakpoints: a trap instruction written over the code, the overwritten bytes
 kept for Reset.
 */
module SoftwareBreakpoints {
  import opened TargetMemory

  datatype Kind = Arm | Thumb | X64 {
    function Trap(): (opcode: seq<byte>)
      ensures |opcode| > 0
    {
      match this
      case Arm => [0x70, 0x00, 0x20, 0xE1]
      case Thumb => [0x00, 0xBE]
      case X64 => [0xCC]
    }
  }

  /**
   The state of a breakpoint object in the process `task`: `active` is its active_, `saved`
   its original_opcode_.
   */
  datatype Bp = Bp(kind: Kind, task: nat, address: nat, active: bool, saved: seq<byte>) {
    function Size(): (size: nat) { |kind.Trap()| }

    predicate Covers(x: nat) { address <= x < address + Size() }

    predicate Placed(mem: Memory) { Mapped(mem.Keys, address, Size()) }

    /** The bytes a trap would overwrite. */
    function Code(mem: Memory): (code: seq<byte>)
      requires Placed(mem)
      ensures |code| == Size()
    {
      Read(mem, address, Size())
    }

    /** After Apply, which goes on whatever the kernel does. */
    function Applied(mem: Memory): (b: Bp)
      requires Placed(mem)
    {
      if kind.X64? then this.(active := true, saved := saved + Code(mem))
      else this.(saved := Code(mem))
    }

    function ApplyMemory(mem: Memory, k: Kernel): (m: Memory)
      ensures m.Keys == mem.Keys
    {
      if k.Writes() then Patch(mem, address, kind.Trap()) else mem
    }

    /** After Reset: the ARM breakpoints have no notion of being active. */
    function WithoutTrap(): (b: Bp) {
      if kind.X64? then this.(active := false) else this
    }

    function ResetMemory(mem: Memory, k: Kernel): (m: Memory)
      ensures m.Keys == mem.Keys
    {
      if k.Writes() then Patch(mem, address, saved) else mem
    }
  }

  const SUCCESS := Kernel(true, true, true)

  class Breakpoint {
    const id: nat
    const kind: Kind
    const address: nat
    const proc: Process
    var active: bool
    var original: seq<byte>

    /** The starting value of active_ is whatever the memory held. */
    constructor (id: nat, kind: Kind, proc: Process, address: nat, active: bool)
      ensures this.id == id && this.proc == proc && Value() == Bp(kind, proc.task, address, active, [])
    {
      this.id, this.kind, this.proc, this.address := id, kind, proc, address;
      this.active, this.original := active, [];
    }

    function Value(): (value: Bp)
      reads this
    {
      Bp(kind, proc.task, address, active, original)
    }

    method Apply(k: Kernel) returns (success: bool)
      requires Value().Placed(proc.memory)
      modifies this, proc
      ensures success == k.Succeeds()
      ensures Value() == old(Value().Applied(proc.memory))
      ensures proc.memory == old(Value().ApplyMemory(proc.memory, k))
      ensures active == (kind.X64? || old(active))
      ensures original == (if kind.X64? then old(original) else []) + old(Value().Code(proc.memory))
      ensures proc.protection == ForcedProtection(old(proc.protection), proc.pageSize, address, Value().Size(), k)
    {
      match kind {
        case Arm => success := ApplyArm(k);
        case Thumb => success := ApplyThumb(k);
        case X64 => success := ApplyX64(k);
      }
    }

    method ApplyArm(k: Kernel) returns (success: bool)
      requires kind.Arm? && Value().Placed(proc.memory)
      modifies this, proc
      ensures success == k.Succeeds()
      ensures Value() == old(Value().Applied(proc.memory))
      ensures proc.memory == old(Value().ApplyMemory(proc.memory, k))
      ensures proc.protection == ForcedProtection(old(proc.protection), proc.pageSize, address, 4, k)
    {
      var opcode: seq<byte> := [0x70, 0x00, 0x20, 0xE1];
      var failed, bytes := proc.ReadMemory(address, 4, true);
      if failed { return false; }
      original := bytes;
      success := proc.WriteMemory(address, opcode, true, k);
    }

    method ApplyThumb(k: Kernel) returns (success: bool)
      requires kind.Thumb? && Value().Placed(proc.memory)
      modifies this, proc
      ensures success == k.Succeeds()
      ensures Value() == old(Value().Applied(proc.memory))
      ensures proc.memory == old(Value().ApplyMemory(proc.memory, k))
      ensures proc.protection == ForcedProtection(old(proc.protection), proc.pageSize, address, 2, k)
    {
      var opcode: seq<byte> := [0x00, 0xBE];
      var failed, bytes := proc.ReadMemory(address, 2, true);
      if failed { return false; }
      original := bytes;
      success := proc.WriteMemory(address, opcode, true, k);
    }

    method ApplyX64(k: Kernel) returns (success: bool)
      requires kind.X64? && Value().Placed(proc.memory)
      modifies this, proc
      ensures success == k.Succeeds()
      ensures Value() == old(Value().Applied(proc.memory))
      ensures proc.memory == old(Value().ApplyMemory(proc.memory, k))
      ensures active && original == old(original) + [old(proc.memory)[address]]
      ensures proc.protection == ForcedProtection(old(proc.protection), proc.pageSize, address, 1, k)
    {
      active := true;
      var opcode: seq<byte> := [0xCC];
      var failed, bytes := proc.ReadMemory(address, 1, true);
      if failed { return false; }
      original := original + bytes;
      success := proc.WriteMemory(address, opcode, true, k);
    }

    method Reset(k: Kernel) returns (success: bool)
      modifies this, proc
      ensures success == k.Succeeds()
      ensures Value() == old(Value().WithoutTrap())
      ensures active == (!kind.X64? && old(active)) && original == old(original)
      ensures proc.memory == old(Value().ResetMemory(proc.memory, k))
      ensures proc.protection == ForcedProtection(old(proc.protection), proc.pageSize, address, |original|, k)
    {
      if kind.X64? {
        active := false;
      }
      success := proc.WriteMemory(address, original, true, k);
    }
  }

  /**
   A write that succeeds leaves the processor's own breakpoint instruction, lowest byte first:
   BKPT of ARM (0xE1200070) and of Thumb (0xBE00), INT3 of x86-64 (0xCC).
   */
  lemma TrapIsInstruction(b: Bp, mem: Memory, k: Kernel)
    requires b.Placed(mem) && k.unprotect && k.write
    ensures b.Code(b.ApplyMemory(mem, k)) ==
            match b.kind
            case Arm => [0x70, 0x00, 0x20, 0xE1]
            case Thumb => [0x00, 0xBE]
            case X64 => [0xCC]
  {
    assert b.Code(b.ApplyMemory(mem, k)) == b.kind.Trap();
  }

  /** A first Apply is undone by Reset, whether or not it wrote. */
  lemma ApplyUndone(b: Bp, mem: Memory, k: Kernel)
    requires b.Placed(mem) && (b.kind.X64? ==> b.saved == [])
    ensures b.Applied(mem).ResetMemory(b.ApplyMemory(mem, k), SUCCESS) == mem
  {
    assert b.Applied(mem).saved == Read(mem, b.address, b.Size());
    PatchUndone(mem, b.address, b.kind.Trap());
    PatchChangesNothing(mem, b.address, Read(mem, b.address, b.Size()));
  }

  // ---------- Repeated cycles ----------

  /** A breakpoint and the memory it is placed in. */
  datatype Site = Site(bp: Bp, mem: Memory)

  /** A call of Apply or Reset, and how its write turns out. */
  datatype Use = Use(isApply: bool, k: Kernel)

  function AfterUse(s: Site, u: Use): (after: Site)
    requires s.bp.Placed(s.mem)
    ensures after.bp.Placed(after.mem) && after.bp.kind == s.bp.kind && after.bp.address == s.bp.address
    ensures after.mem.Keys == s.mem.Keys
  {
    if u.isApply then Site(s.bp.Applied(s.mem), s.bp.ApplyMemory(s.mem, u.k))
    else Site(s.bp.WithoutTrap(), s.bp.ResetMemory(s.mem, u.k))
  }

  /** Apply and Reset, with every write succeeding. */
  function Cycle(s: Site): (c: Site)
    requires s.bp.Placed(s.mem)
    ensures c.bp.Placed(c.mem) && c.bp.kind == s.bp.kind && c.bp.address == s.bp.address && c.mem.Keys == s.mem.Keys
  {
    AfterUse(AfterUse(s, Use(true, SUCCESS)), Use(false, SUCCESS))
  }

  function Cycles(s: Site, n: nat): (c: Site)
    requires s.bp.Placed(s.mem)
    ensures c.bp.Placed(c.mem) && c.bp.kind == s.bp.kind && c.bp.address == s.bp.address && c.mem.Keys == s.mem.Keys
  {
    if n == 0 then s else Cycle(Cycles(s, n - 1))
  }

  function Copies(x: byte, n: nat): (s: seq<byte>)
    ensures |s| == n && forall i :: 0 <= i < n ==> s[i] == x
  {
    seq(n, _ => x)
  }

  lemma X64Cycle(s: Site, mem: Memory, x: byte, n: nat)
    requires s.bp.kind.X64? && s.bp.Placed(s.mem) && s.bp.Placed(mem) && mem[s.bp.address] == x
    requires s.bp.saved == Copies(x, n) && s.mem == Patch(mem, s.bp.address, Copies(x, n))
    ensures Cycle(s).bp.saved == Copies(x, n + 1)
    ensures Cycle(s).mem == Patch(mem, s.bp.address, Copies(x, n + 1))
  {
    assert s.mem[s.bp.address] == x;
    assert s.bp.Applied(s.mem).saved == Copies(x, n + 1);
  }

  /**
   x86-64, where Apply appends to the saved bytes: after n cycles there are n copies of the
   first byte, and Reset has spread them over n bytes of memory.
   */
  lemma {:induction false} X64Cycles(b: Bp, mem: Memory, n: nat)
    requires b.kind.X64? && b.saved == [] && b.Placed(mem)
    ensures var x := mem[b.address];
      && Cycles(Site(b, mem), n).bp.saved == Copies(x, n)
      && Cycles(Site(b, mem), n).mem == Patch(mem, b.address, Copies(x, n))
  {
    if n > 0 {
      X64Cycles(b, mem, n - 1);
      X64Cycle(Cycles(Site(b, mem), n - 1), mem, mem[b.address], n - 1);
    } else {
      assert Patch(mem, b.address, []) == mem;
    }
  }

  /** So n cycles restore memory exactly when the n bytes were all the same to begin with. */
  lemma X64CyclesRestore(b: Bp, mem: Memory, n: nat)
    requires b.kind.X64? && b.saved == [] && b.Placed(mem) && Mapped(mem.Keys, b.address, n)
    ensures Cycles(Site(b, mem), n).mem == mem <==> Read(mem, b.address, n) == Copies(mem[b.address], n)
  {
    X64Cycles(b, mem, n);
    PatchChangesNothing(mem, b.address, Copies(mem[b.address], n));
  }

  lemma ArmCycle(s: Site)
    requires !s.bp.kind.X64? && s.bp.Placed(s.mem)
    ensures Cycle(s).mem == s.mem
  {
    var a, trap := s.bp.address, s.bp.kind.Trap();
    assert Cycle(s).mem == Patch(Patch(s.mem, a, trap), a, Read(s.mem, a, |trap|));
    PatchUndone(s.mem, a, trap);
  }

  /** ARM and Thumb, where Apply replaces the saved bytes: any number of cycles restores memory. */
  lemma {:induction false} ArmCyclesRestore(b: Bp, mem: Memory, n: nat)
    requires !b.kind.X64? && b.Placed(mem)
    ensures Cycles(Site(b, mem), n).mem == mem
  {
    hide Cycle;
    if n > 0 {
      ArmCyclesRestore(b, mem, n - 1);
      ArmCycle(Cycles(Site(b, mem), n - 1));
    }
  }

  /**
   Applied twice in a row, an ARM or Thumb breakpoint saves its own trap: Reset restores
   memory exactly when the trap was there in the first place.
   */
  lemma ArmAppliedTwice(b: Bp, mem: Memory)
    requires !b.kind.X64? && b.Placed(mem)
    ensures var once := b.ApplyMemory(mem, SUCCESS);
      var twice := b.Applied(mem).ApplyMemory(once, SUCCESS);
      b.Applied(mem).Applied(once).ResetMemory(twice, SUCCESS) == mem <==> b.Code(mem) == b.kind.Trap()
  {
    var trap := b.kind.Trap();
    var once := b.ApplyMemory(mem, SUCCESS);
    assert Read(once, b.address, b.Size()) == trap;
    assert Patch(once, b.address, trap) == once;
    PatchChangesNothing(mem, b.address, trap);
  }

  // ---------- Any use of one x86-64 breakpoint ----------

  function AfterUses(s: Site, uses: seq<Use>): (after: Site)
    requires s.bp.Placed(s.mem)
    ensures after.bp.Placed(after.mem) && after.bp.kind == s.bp.kind && after.bp.address == s.bp.address
    ensures after.mem.Keys == s.mem.Keys
  {
    if uses == [] then s else AfterUse(AfterUses(s, uses[..|uses| - 1]), uses[|uses| - 1])
  }

  /** The last call to write was an Apply. */
  predicate TrapIn(uses: seq<Use>) {
    uses != [] &&
    var last := uses[|uses| - 1];
    if last.k.Writes() then last.isApply else TrapIn(uses[..|uses| - 1])
  }

  /** One byte for each Apply: the trap where one was in, the original byte `x` otherwise. */
  function SavedBy(uses: seq<Use>, x: byte): (saved: seq<byte>)
    ensures |saved| <= |uses|
  {
    if uses == [] then []
    else
      var init := uses[..|uses| - 1];
      SavedBy(init, x) + if !uses[|uses| - 1].isApply then [] else if TrapIn(init) then [0xCC] else [x]
  }

  /** The bytes that the uses leave from the breakpoint's address on. */
  function LeftBy(uses: seq<Use>, x: byte): (left: seq<byte>)
    ensures |left| <= |SavedBy(uses, x)|
  {
    if uses == [] then []
    else
      var init, last := uses[..|uses| - 1], uses[|uses| - 1];
      if !last.k.Writes() then LeftBy(init, x)
      else if last.isApply then [0xCC] + if LeftBy(init, x) == [] then [] else LeftBy(init, x)[1..]
      else SavedBy(init, x)
  }

  /** What is left starts with the trap or the original byte, whichever is in. */
  lemma {:induction false} FirstLeft(uses: seq<Use>, x: byte)
    ensures TrapIn(uses) ==> LeftBy(uses, x) != [] && LeftBy(uses, x)[0] == 0xCC
    ensures !TrapIn(uses) && LeftBy(uses, x) != [] ==> LeftBy(uses, x)[0] == x
    ensures SavedBy(uses, x) != [] ==> SavedBy(uses, x)[0] == x
    ensures SavedBy(uses, x) == [] ==> !TrapIn(uses)
  {
    if uses != [] { FirstLeft(uses[..|uses| - 1], x); }
  }

  /** Writing over a patch, no further than it reaches or further. */
  lemma PatchTwice(mem: Memory, address: nat, first: seq<byte>, second: seq<byte>)
    ensures |second| <= |first| ==>
              Patch(Patch(mem, address, first), address, second) == Patch(mem, address, second + first[|second|..])
    ensures |first| <= |second| ==> Patch(Patch(mem, address, first), address, second) == Patch(mem, address, second)
  {
  }

  /** The three functions at one more call. */
  lemma OneMore(uses: seq<Use>, u: Use, x: byte)
    ensures TrapIn(uses + [u]) == if u.k.Writes() then u.isApply else TrapIn(uses)
    ensures SavedBy(uses + [u], x) ==
            SavedBy(uses, x) + if !u.isApply then [] else if TrapIn(uses) then [0xCC] else [x]
    ensures var left := LeftBy(uses, x);
      LeftBy(uses + [u], x) ==
      if !u.k.Writes() then left
      else if u.isApply then [0xCC] + (if left == [] then [] else left[1..])
      else SavedBy(uses, x)
  {
    assert (uses + [u])[..|uses|] == uses;
  }

  /** The site a sequence of uses leaves behind, when `x` was the original byte. */
  ghost predicate Leaves(s: Site, mem: Memory, uses: seq<Use>, x: byte) {
    && s.bp.kind.X64? && s.bp.Placed(mem) && x == mem[s.bp.address]
    && s.mem == Patch(mem, s.bp.address, LeftBy(uses, x))
    && s.bp.saved == SavedBy(uses, x)
  }

  lemma ApplyLeaves(s: Site, mem: Memory, uses: seq<Use>, x: byte, k: Kernel)
    requires Leaves(s, mem, uses, x) && s.bp.Placed(s.mem)
    ensures Leaves(AfterUse(s, Use(true, k)), mem, uses + [Use(true, k)], x)
  {
    var left, a := LeftBy(uses, x), s.bp.address;
    FirstLeft(uses, x);
    OneMore(uses, Use(true, k), x);
    hide SavedBy, TrapIn, LeftBy;
    assert s.mem[a] == if TrapIn(uses) then 0xCC else x;
    assert s.bp.Code(s.mem) == [s.mem[a]];
    PatchTwice(mem, a, left, [0xCC]);
    if left == [] { assert [0xCC] + [] == [0xCC as byte]; }
  }

  lemma ResetLeaves(s: Site, mem: Memory, uses: seq<Use>, x: byte, k: Kernel)
    requires Leaves(s, mem, uses, x) && s.bp.Placed(s.mem)
    ensures Leaves(AfterUse(s, Use(false, k)), mem, uses + [Use(false, k)], x)
  {
    OneMore(uses, Use(false, k), x);
    PatchTwice(mem, s.bp.address, LeftBy(uses, x), s.bp.saved);
    hide SavedBy, TrapIn, LeftBy;
  }

  /**
   However an x86-64 breakpoint is used, with any writes failing: what it has saved and
   what it leaves in memory, in terms of the uses and of the original byte alone.
   */
  lemma {:induction false} X64Leaves(b: Bp, mem: Memory, uses: seq<Use>)
    requires b.kind.X64? && b.saved == [] && b.Placed(mem)
    ensures AfterUses(Site(b, mem), uses).bp.saved == SavedBy(uses, mem[b.address])
    ensures AfterUses(Site(b, mem), uses).mem == Patch(mem, b.address, LeftBy(uses, mem[b.address]))
  {
    if uses == [] {
      assert Patch(mem, b.address, []) == mem;
    } else {
      var init, last, x := uses[..|uses| - 1], uses[|uses| - 1], mem[b.address];
      var before := AfterUses(Site(b, mem), init);
      X64Leaves(b, mem, init);
      assert uses == init + [last];
      hide AfterUse, SavedBy, LeftBy, TrapIn;
      if last.isApply { ApplyLeaves(before, mem, init, x, last.k); } else { ResetLeaves(before, mem, init, x, last.k); }
    }
  }

  /** So memory is the original exactly when the bytes left were there to begin with. */
  lemma X64LeavesOriginal(b: Bp, mem: Memory, uses: seq<Use>)
    requires b.kind.X64? && b.saved == [] && b.Placed(mem)
    requires Mapped(mem.Keys, b.address, |LeftBy(uses, mem[b.address])|)
    ensures var left := LeftBy(uses, mem[b.address]);
      AfterUses(Site(b, mem), uses).mem == mem <==> left == Read(mem, b.address, |left|)
  {
    X64Leaves(b, mem, uses);
    PatchChangesNothing(mem, b.address, LeftBy(uses, mem[b.address]));
  }

  /**
   Apply, Apply, Reset turns the byte after an x86-64 breakpoint into a trap: memory is
   restored exactly when it was one.
   */
  lemma X64AppliedTwice(b: Bp, mem: Memory)
    requires b.kind.X64? && b.saved == [] && b.Placed(mem) && b.address + 1 in mem
    ensures var uses := [Use(true, SUCCESS), Use(true, SUCCESS), Use(false, SUCCESS)];
      AfterUses(Site(b, mem), uses).mem == mem <==> mem[b.address + 1] == 0xCC
  {
    var apply, reset := Use(true, SUCCESS), Use(false, SUCCESS);
    var x := mem[b.address];
    assert [apply, apply, reset][..2] == [apply, apply] && [apply, apply][..1] == [apply] && [apply][..0] == [];
    assert SavedBy([apply], x) == [x] && TrapIn([apply]);
    assert SavedBy([apply, apply], x) == [x, 0xCC];
    assert LeftBy([apply, apply, reset], x) == [x, 0xCC];
    assert Read(mem, b.address, 2) == [x, mem[b.address + 1]];
    X64LeavesOriginal(b, mem, [apply, apply, reset]);
    hide AfterUses, SavedBy, LeftBy;
  }
}
