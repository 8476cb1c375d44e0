/**
 * find_sys_call_table (sys_open_interceptor.c:34-42): a first-match linear scan of
 * kernel memory for a word-aligned position whose __NR_close slot holds the address
 * of sys_close.
 *
 * The C loop advances `table`, a `ulong **`, by `sizeof(void*)`; pointer arithmetic
 * scales that by the size of a pointer, so consecutive candidates are STRIDE = 8
 * words (64 bytes) apart. The scan's upper bound (ULLONG_MAX in the C code) becomes
 * the end of the modelled memory: a candidate is considered only while its
 * __NR_close slot lies inside it.
 */
module Locator {
  import opened Wrappers
  import opened Kernel

  /** Words between consecutive candidates: `table += sizeof(void*)` on a `ulong **`. */
  const STRIDE: nat := 8

  /** The table at word `base` passes the structural test. */
  predicate IsSysCallTable(mem: seq<Addr>, base: nat, sysClose: Addr)
  {
    base + NR_CLOSE < |mem| && mem[base + NR_CLOSE] == sysClose
  }

  /** Candidate number `k` (at word k * STRIDE) passes the structural test. */
  predicate IsTableCandidate(mem: seq<Addr>, k: nat, sysClose: Addr)
  {
    IsSysCallTable(mem, k * STRIDE, sysClose)
  }

  /** The first candidate at or after word `from` that passes, as a base word index. */
  function LocateFrom(mem: seq<Addr>, sysClose: Addr, from: nat): (r: Option<nat>)
    requires from % STRIDE == 0
    ensures r.Some? ==> from <= r.value && r.value % STRIDE == 0
    ensures r.Some? ==> IsSysCallTable(mem, r.value, sysClose)
    ensures r.Some? ==> forall k: nat :: from <= k * STRIDE < r.value ==> !IsTableCandidate(mem, k, sysClose)
    ensures r.None? ==> forall k: nat :: from <= k * STRIDE ==> !IsTableCandidate(mem, k, sysClose)
    decreases |mem| - from
  {
    if from + NR_CLOSE >= |mem| then None
    else if mem[from + NR_CLOSE] == sysClose then Some(from)
    else LocateFrom(mem, sysClose, from + STRIDE)
  }

  /** The table find_sys_call_table returns: the first passing candidate, or NULL. */
  function Locate(mem: seq<Addr>, sysClose: Addr): (r: Option<nat>)
    ensures r.Some? ==> r.value % STRIDE == 0 && IsSysCallTable(mem, r.value, sysClose)
    ensures r.Some? ==> forall k: nat :: k * STRIDE < r.value ==> !IsTableCandidate(mem, k, sysClose)
    ensures r.None? ==> forall k: nat :: !IsTableCandidate(mem, k, sysClose)
  {
    LocateFrom(mem, sysClose, 0)
  }

  /** The scan is a first match: it returns a passing candidate and every earlier one fails. */
  lemma LocateIsFirstMatch(mem: seq<Addr>, sysClose: Addr, k: nat)
    requires IsTableCandidate(mem, k, sysClose)
    ensures Locate(mem, sysClose).Some?
    ensures Locate(mem, sysClose).value <= k * STRIDE
  {
  }

  /** The C loop, proved to return the table Locate describes. */
  method FindSysCallTable(mem: seq<Addr>, sysClose: Addr) returns (table: Option<nat>)
    ensures table == Locate(mem, sysClose)
  {
    var base := 0;
    while base + NR_CLOSE < |mem|
      invariant base % STRIDE == 0
      invariant LocateFrom(mem, sysClose, base) == Locate(mem, sysClose)
      decreases |mem| - base
    {
      if mem[base + NR_CLOSE] == sysClose {
        return Some(base);
      }
      base := base + STRIDE;
    }
    return None;
  }
}
