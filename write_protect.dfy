/**
 * set_write_protection (sys_open_interceptor.c:25-32): the bit arithmetic on CR0
 * that turns the write-protect flag (bit 16, WP) on or off.
 *
 * CR0 is a 64-bit register; the C constant WRITE_PROTECT_BIT is a 32-bit `int`.
 * `read_cr0() | WRITE_PROTECT_BIT` and `read_cr0() & ~WRITE_PROTECT_BIT` take the
 * complement in 32 bits and then widen the int to `unsigned long` by sign extension,
 * both written out here. A 32-bit int is held as its bit pattern in the low half of a
 * `bv64`.
 */
module WriteProtect {

  /** The bit pattern of a 32-bit C int. */
  type Int32Bits = x: bv64 | x <= 0xFFFF_FFFF

  /** The C constant, an `int`. */
  const WRITE_PROTECT_BIT: Int32Bits := 0x10000

  /** Bit 16 of CR0 (WP) as a 64-bit mask. */
  const CR0_WP: bv64 := 0x10000

  /** C's `~` on a 32-bit int. */
  function Complement32(x: Int32Bits): Int32Bits
  {
    x ^ 0xFFFF_FFFF
  }

  /** C's conversion of a (signed) 32-bit int to a 64-bit unsigned long. */
  function SignExtend(x: Int32Bits): bv64
  {
    if x & 0x8000_0000 != 0 then 0xFFFF_FFFF_0000_0000 | x else x
  }

  /** The int constant and its complement, widened as C widens them, are WP and its complement. */
  lemma WideMasks()
    ensures SignExtend(WRITE_PROTECT_BIT) == CR0_WP
    ensures SignExtend(Complement32(WRITE_PROTECT_BIT)) == !CR0_WP
  {
  }

  predicate IsWriteProtected(cr0: bv64)
  {
    cr0 & CR0_WP != 0
  }

  /** The value written back to CR0 by set_write_protection(protect), given the value read. */
  function WithWriteProtection(cr0: bv64, protect: bool): (r: bv64)
    ensures IsWriteProtected(r) == protect
  {
    if protect then cr0 | SignExtend(WRITE_PROTECT_BIT)
    else cr0 & SignExtend(Complement32(WRITE_PROTECT_BIT))
  }

  /** set_write_protection makes WP equal to `protect` and leaves every other bit as read. */
  lemma WithWriteProtectionSetsOnlyWP(cr0: bv64, protect: bool)
    ensures IsWriteProtected(WithWriteProtection(cr0, protect)) == protect
    ensures WithWriteProtection(cr0, protect) & !CR0_WP == cr0 & !CR0_WP
  {
  }

  /** Setting the flag to the same value twice is the same as setting it once. */
  lemma WithWriteProtectionIdempotent(cr0: bv64, protect: bool)
    ensures WithWriteProtection(WithWriteProtection(cr0, protect), protect)
         == WithWriteProtection(cr0, protect)
  {
  }

  /** Setting the flag to the value it already has leaves the register as it was. */
  lemma WithWriteProtectionNoOp(cr0: bv64, protect: bool)
    requires IsWriteProtected(cr0) == protect
    ensures WithWriteProtection(cr0, protect) == cr0
  {
    WideMasks();
    if protect {
      assert cr0 & CR0_WP == CR0_WP;
    } else {
      assert cr0 & CR0_WP == 0;
    }
  }

  /**
   * The off/on bracket used around every table write: the register ends with WP set and
   * all other bits as before, so it is restored exactly when WP was set to begin with.
   */
  lemma UnprotectThenProtect(cr0: bv64)
    ensures WithWriteProtection(WithWriteProtection(cr0, false), true) == cr0 | CR0_WP
    ensures IsWriteProtected(cr0) ==>
              WithWriteProtection(WithWriteProtection(cr0, false), true) == cr0
  {
  }

  /**
   * Two off/on brackets in a row (a load and an unload) leave WP set and every other bit
   * as before, so CR0 is restored exactly when WP was set to begin with.
   */
  lemma TwoBrackets(cr0: bv64)
    ensures var once := WithWriteProtection(WithWriteProtection(cr0, false), true);
            WithWriteProtection(WithWriteProtection(once, false), true) == cr0 | CR0_WP
    ensures IsWriteProtected(cr0) ==>
              var once := WithWriteProtection(WithWriteProtection(cr0, false), true);
              WithWriteProtection(WithWriteProtection(once, false), true) == cr0
  {
  }
}
