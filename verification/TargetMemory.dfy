/** The memory of the inspected process, and the two operations the debugger has on it. */
module TargetMemory {
  type byte = x: int | 0 <= x < 256

  /** The mapped addresses with their contents. */
  type Memory = map<nat, byte>

  predicate Mapped(addresses: set<nat>, address: nat, size: nat) {
    forall x :: address <= x < address + size ==> x in addresses
  }

  function Read(mem: Memory, address: nat, size: nat): (bytes: seq<byte>)
    requires Mapped(mem.Keys, address, size)
    ensures |bytes| == size
    ensures forall i :: 0 <= i < size ==> bytes[i] == mem[address + i]
  {
    seq(size, i requires 0 <= i < size => mem[address + i])
  }

  /** `mem` with `bytes` written from `address` on. */
  function Patch(mem: Memory, address: nat, bytes: seq<byte>): (m: Memory)
    ensures m.Keys == mem.Keys
    ensures forall x :: x in mem && address <= x < address + |bytes| ==> m[x] == bytes[x - address]
    ensures forall x :: x in mem && !(address <= x < address + |bytes|) ==> m[x] == mem[x]
  {
    map x | x in mem :: if address <= x < address + |bytes| then bytes[x - address] else mem[x]
  }

  const VM_PROT_READ_EXECUTE := 5
  const VM_PROT_ALL_COPY := 0x17

  /** Protection of each mapped address. */
  type Protection = map<nat, nat>

  type PageSize = x: int | x > 0 witness 4096

  /** The start of the page of `x`. */
  function PageStart(x: nat, page: PageSize): (start: nat)
    ensures start <= x < start + page
  {
    x - x % page
  }

  /** `x` is in a page that holds some of the `size` addresses from `address` on. */
  predicate OnPagesOf(x: nat, address: nat, size: nat, page: PageSize) {
    size > 0 && PageStart(address, page) <= x < PageStart(address + size - 1, page) + page
  }

  /** vm_protect: whole pages change. */
  function Protect(prot: Protection, page: PageSize, address: nat, size: nat, p: nat): (after: Protection) {
    map x | x in prot :: if OnPagesOf(x, address, size, page) then p else prot[x]
  }

  /** How the three kernel calls of a forced write turn out. */
  datatype Kernel = Kernel(unprotect: bool, write: bool, protect: bool) {
    /** The bytes reach memory. */
    predicate Writes() { unprotect && write }

    /** WriteMemory reports success. */
    predicate Succeeds() { unprotect && write && protect }
  }

  /** Protection after a forced write: original protections are never put back. */
  function ForcedProtection(prot: Protection, page: PageSize, address: nat, size: nat, k: Kernel): (after: Protection) {
    if !k.unprotect then prot
    else
      var open := Protect(prot, page, address, size, VM_PROT_ALL_COPY);
      if k.Succeeds() then Protect(open, page, address, size, VM_PROT_READ_EXECUTE) else open
  }

  class Process {
    const task: nat
    const pageSize: PageSize
    var memory: Memory
    var protection: Protection

    /**
     The status is KERN_SUCCESS turned into a bool, so it is false either way; when the
     kernel cannot read, what is in the output buffer is arbitrary.
     */
    method ReadMemory(address: nat, size: nat, readable: bool) returns (status: bool, output: seq<byte>)
      requires readable ==> Mapped(memory.Keys, address, size)
      ensures !status && |output| == size
      ensures readable ==> output == Read(memory, address, size)
    {
      if readable {
        output := Read(memory, address, size);
      } else {
        assert |seq(size, _ => 0 as byte)| == size;
        output :| |output| == size;
      }
      status := false;
    }

    method WriteMemory(address: nat, input: seq<byte>, force: bool, k: Kernel) returns (success: bool)
      modifies this
      ensures force ==>
                && success == (k.unprotect && k.write && k.protect)
                && memory == (if k.unprotect && k.write then Patch(old(memory), address, input) else old(memory))
                && protection == ForcedProtection(old(protection), pageSize, address, |input|, k)
      ensures !force ==>
                && success == k.write && protection == old(protection)
                && memory == if k.write then Patch(old(memory), address, input) else old(memory)
    {
      if force {
        if !k.unprotect { return false; }
        protection := Protect(protection, pageSize, address, |input|, VM_PROT_ALL_COPY);
        if !k.write { return false; }
        memory := Patch(memory, address, input);
        if !k.protect { return false; }
        protection := Protect(protection, pageSize, address, |input|, VM_PROT_READ_EXECUTE);
      } else {
        if !k.write { return false; }
        memory := Patch(memory, address, input);
      }
      success := true;
    }
  }

  lemma SamePage(x: nat, y: nat, page: PageSize)
    ensures x / page == y / page <==> PageStart(x, page) == PageStart(y, page)
  {
    assert PageStart(x, page) == page * (x / page) && PageStart(y, page) == page * (y / page);
    if x / page < y / page { PagesInOrder(x / page, y / page, page); }
    if y / page < x / page { PagesInOrder(y / page, x / page, page); }
  }

  lemma PagesInOrder(a: nat, b: nat, page: PageSize)
    requires a < b
    ensures page * a + page <= page * b
  {
    var between := b - a - 1;
    assert page * (a + 1 + between) == page * (a + 1) + page * between;
    assert page * between >= 0;
    assert page * (a + 1) == page * a + page;
  }

  /** An address between two page starts is in a page between them. */
  lemma StartsInOrder(x: nat, y: nat, page: PageSize)
    requires x <= y
    ensures PageStart(x, page) <= PageStart(y, page)
    ensures PageStart(x, page) < PageStart(y, page) ==> PageStart(x, page) + page <= PageStart(y, page)
  {
    var a, b := x / page, y / page;
    assert x == page * a + x % page && y == page * b + y % page;
    if a < b { PagesInOrder(a, b, page); }
    if b < a { PagesInOrder(b, a, page); }
  }

  /** The pages that change are those that hold some of the addresses. */
  lemma PagesTouched(x: nat, address: nat, size: nat, page: PageSize)
    ensures OnPagesOf(x, address, size, page) <==>
            exists y: nat :: address <= y < address + size && y / page == x / page
  {
    if OnPagesOf(x, address, size, page) {
      var y := if x < address then address else if x < address + size then x else address + size - 1;
      if x <= y { StartsInOrder(x, y, page); } else { StartsInOrder(y, x, page); }
      SamePage(x, y, page);
      assert y / page == x / page;
    }
    if y: nat :| address <= y < address + size && y / page == x / page {
      SamePage(x, y, page);
      StartsInOrder(address, y, page);
      StartsInOrder(y, address + size - 1, page);
    }
  }

  /**
   Protection after a forced write, by its three calls: only pages that hold some of the bytes
   change, whatever they were; they are readable and executable but not writable when all
   calls succeed, and left open when one after the first fails.
   */
  lemma ForcedWriteProtects(prot: Protection, page: PageSize, address: nat, size: nat, k: Kernel, x: nat)
    requires x in prot
    ensures var after := ForcedProtection(prot, page, address, size, k);
      && after.Keys == prot.Keys
      && after[x] == if !k.unprotect || !(exists y: nat :: address <= y < address + size && y / page == x / page)
                     then prot[x]
                     else if k.write && k.protect then 5 else 0x17
  {
    PagesTouched(x, address, size, page);
    hide OnPagesOf, PageStart;
  }

  /** A write changes nothing exactly when it writes what is there. */
  lemma PatchChangesNothing(mem: Memory, address: nat, bytes: seq<byte>)
    requires Mapped(mem.Keys, address, |bytes|)
    ensures Patch(mem, address, bytes) == mem <==> bytes == Read(mem, address, |bytes|)
  {
    var patched := Patch(mem, address, bytes);
    if patched == mem {
      forall i | 0 <= i < |bytes| ensures bytes[i] == mem[address + i] {
        assert address + i in mem && patched[address + i] == bytes[i];
      }
    }
  }

  /** Writing back what was read undoes any write to the same place. */
  lemma PatchUndone(mem: Memory, address: nat, bytes: seq<byte>)
    requires Mapped(mem.Keys, address, |bytes|)
    ensures Patch(Patch(mem, address, bytes), address, Read(mem, address, |bytes|)) == mem
  {
  }
}
