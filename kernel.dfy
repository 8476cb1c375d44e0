/**
 * The parts of the running kernel that the interceptor reads and writes: a window of
 * kernel memory (pointer-sized words, word 0 at PAGE_OFFSET), the CR0 control
 * register, and the system-call numbers it uses. read_cr0/write_cr0 and raw stores
 * become methods of `Machine`; a ghost log records every CR0 write and memory store
 * in order, so that callers can state what was touched and when.
 */
module Kernel {
  import opened WriteProtect

  /** A kernel virtual address (a pointer-sized word); 0 is NULL. */
  type Addr = nat

  const NULL: Addr := 0

  /** System-call numbers on x86_64. */
  const NR_OPEN: nat := 2
  const NR_CLOSE: nat := 3

  /** Error numbers returned negated by mod_init. */
  const EAGAIN: int := 11
  const EINVAL: int := 22

  /** One privileged side effect, in the order it happened. */
  datatype Event = Cr0Write(cr0: bv64) | Store(index: nat, value: Addr)

  class Machine {
    var cr0: bv64
    const mem: array<Addr>
    ghost var log: seq<Event>

    constructor (mem: array<Addr>, cr0: bv64)
      ensures this.mem == mem && this.cr0 == cr0 && log == []
    {
      this.mem := mem;
      this.cr0 := cr0;
      log := [];
    }

    predicate WriteProtected()
      reads this
    {
      IsWriteProtected(cr0)
    }

    /** set_write_protection: read CR0, set or clear WP, write it back. */
    method SetWriteProtection(protect: bool)
      modifies this
      ensures cr0 == WithWriteProtection(old(cr0), protect)
      ensures WriteProtected() == protect
      ensures log == old(log) + [Cr0Write(cr0)]
    {
      WithWriteProtectionSetsOnlyWP(cr0, protect);
      cr0 := WithWriteProtection(cr0, protect);
      log := log + [Cr0Write(cr0)];
    }

    /**
     * A single pointer-sized store into the table region. That region is read-only to
     * the kernel while WP is set (the store would fault), hence the precondition.
     */
    method Store(index: nat, value: Addr)
      requires index < mem.Length
      requires !WriteProtected()
      modifies this, mem
      ensures cr0 == old(cr0)
      ensures mem[..] == old(mem[..])[index := value]
      ensures log == old(log) + [Event.Store(index, value)]
    {
      mem[index] := value;
      log := log + [Event.Store(index, value)];
    }
  }
}
