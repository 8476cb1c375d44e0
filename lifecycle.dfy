/**
 * mod_init and mod_exit (sys_open_interceptor.c:70-105): validate the configuration,
 * locate the system-call table, and inside a WP-off/WP-on bracket save the __NR_open
 * slot and install the override there; on unload write the saved entry back.
 *
 * A `Module` holds the module's globals (g_sys_call_table, g_sys_open_original) and
 * its immutable parameters; it acts on a shared `Machine`. A reload is a fresh
 * `Module` over the same machine, as the kernel re-initialises the module's statics.
 */
module Lifecycle {
  import opened Wrappers
  import opened WriteProtect
  import opened Kernel
  import opened Locator
  import opened Interceptor

  datatype HookState = Uninstalled | Installed

  class Module {
    const machine: Machine
    const config: Config
    /** Address of sys_close, the reference entry of the structural test. */
    const sysClose: Addr
    /** Address of sys_open_override. */
    const overrideAddr: Addr
    /** g_sys_call_table: the base word of the table in `machine.mem`, None when NULL. */
    var table: Option<nat>
    /** g_sys_open_original. */
    var original: Addr
    ghost var state: HookState

    ghost predicate Valid()
      reads this, machine, machine.mem
    {
      && |config.extensions| <= P_EXTENSIONS_LEN_MAX
      && (table.Some? ==>
            && config.replacement.Some?
            && config.extensions != []
            && table.value + NR_OPEN < machine.mem.Length)
      && (state == Installed ==> table.Some?)
    }

    /** The index in `machine.mem` of the table's __NR_open slot. */
    function OpenSlot(): nat
      reads this
      requires table.Some?
    {
      table.value + NR_OPEN
    }

    /** Module load: the statics start out NULL. */
    constructor (machine: Machine, config: Config, sysClose: Addr, overrideAddr: Addr)
      requires |config.extensions| <= P_EXTENSIONS_LEN_MAX
      ensures Valid() && state == Uninstalled
      ensures this.machine == machine && this.config == config
      ensures this.sysClose == sysClose && this.overrideAddr == overrideAddr
      ensures table == None && original == NULL
    {
      this.machine := machine;
      this.config := config;
      this.sysClose := sysClose;
      this.overrideAddr := overrideAddr;
      table := None;
      original := NULL;
      state := Uninstalled;
    }

    /**
     * mod_init. Fails with -EINVAL when the replacement path is missing (checked first)
     * or no extension is configured, and with -EAGAIN when no table is found; a failure
     * writes no memory and no CR0. On success it performs exactly: WP off, one store of
     * the override into the __NR_open slot (whose previous entry it saves), WP on.
     */
    method ModInit() returns (status: int)
      requires Valid() && state == Uninstalled
      modifies this, machine, machine.mem
      ensures Valid()
      ensures config.replacement.None? ==> status == -EINVAL
      ensures config.replacement.Some? && config.extensions == [] ==> status == -EINVAL
      ensures (config.replacement.Some? && config.extensions != [] &&
               Locate(old(machine.mem[..]), sysClose).None?) ==> status == -EAGAIN
      ensures status == 0 <==>
              config.replacement.Some? && config.extensions != [] &&
              Locate(old(machine.mem[..]), sysClose).Some?
      ensures status == -EINVAL ==> table == old(table)
      ensures status == -EAGAIN ==> table == None
      ensures status != 0 ==>
              && state == Uninstalled
              && original == old(original)
              && machine.mem[..] == old(machine.mem[..])
              && machine.cr0 == old(machine.cr0)
              && machine.log == old(machine.log)
      ensures status == 0 ==>
              && state == Installed
              && table == Locate(old(machine.mem[..]), sysClose)
              && original == old(machine.mem[..])[OpenSlot()]
              && machine.mem[..] == old(machine.mem[..])[OpenSlot() := overrideAddr]
              && machine.cr0 == WithWriteProtection(WithWriteProtection(old(machine.cr0), false), true)
              && machine.WriteProtected()
              && machine.log == old(machine.log) + [
                   Cr0Write(WithWriteProtection(old(machine.cr0), false)),
                   Event.Store(OpenSlot(), overrideAddr),
                   Cr0Write(machine.cr0)]
    {
      if config.replacement.None? {
        return -EINVAL;
      }
      if |config.extensions| == 0 {
        return -EINVAL;
      }
      table := FindSysCallTable(machine.mem[..], sysClose);
      if table.None? {
        return -EAGAIN;
      }
      var slot := table.value + NR_OPEN;
      machine.SetWriteProtection(false);
      original := machine.mem[slot];
      machine.Store(slot, overrideAddr);
      machine.SetWriteProtection(true);
      state := Installed;
      return 0;
    }

    /**
     * mod_exit: inside a WP-off/WP-on bracket, write the saved entry back into the
     * __NR_open slot. Nothing else in memory changes.
     */
    method ModExit()
      requires Valid() && state == Installed
      modifies this, machine, machine.mem
      ensures Valid() && state == Uninstalled
      ensures table == old(table) && original == old(original)
      ensures machine.mem[..] == old(machine.mem[..])[OpenSlot() := original]
      ensures machine.cr0 == WithWriteProtection(WithWriteProtection(old(machine.cr0), false), true)
      ensures machine.WriteProtected()
      ensures machine.log == old(machine.log) + [
                Cr0Write(WithWriteProtection(old(machine.cr0), false)),
                Event.Store(OpenSlot(), original),
                Cr0Write(machine.cr0)]
    {
      var slot := table.value + NR_OPEN;
      machine.SetWriteProtection(false);
      machine.Store(slot, original);
      machine.SetWriteProtection(true);
      state := Uninstalled;
    }

    /**
     * An open(2) as the kernel dispatches it, through the __NR_open slot of the table.
     * While the slot holds the override, sys_open_override runs with this module's
     * parameters and saved g_sys_open_original; otherwise the entry in the slot is
     * called directly.
     */
    method Dispatch(code: Code, call: OpenCall, fs: Segment)
      returns (file: int, calls: seq<Delegation>, fsAfter: Segment)
      requires Valid() && table.Some?
      ensures machine.mem[OpenSlot()] == overrideAddr ==>
                calls == [Intercept(config, call, fs)] && file == code(original, calls[0])
      ensures machine.mem[OpenSlot()] != overrideAddr ==>
                calls == [Delegation(call, fs)] && file == code(machine.mem[OpenSlot()], calls[0])
      ensures fsAfter == fs
    {
      var entry := machine.mem[table.value + NR_OPEN];
      if entry == overrideAddr {
        file, calls, fsAfter := SysOpenOverride(config, original, code, call.filename, call.flags, call.mode, fs);
      } else {
        calls := [Delegation(call, fs)];
        file := code(entry, calls[0]);
        fsAfter := fs;
      }
    }
  }

  /**
   * After a successful load, an open dispatched through the table reaches the entry the
   * __NR_open slot held before the load, with the arguments the override derives.
   */
  method OpenAfterLoad(m: Module, code: Code, call: OpenCall, fs: Segment)
    returns (status: int, file: int)
    requires m.Valid() && m.state == Uninstalled
    modifies m, m.machine, m.machine.mem
    ensures status == 0 ==> m.Valid() && m.table.Some?
    ensures status == 0 ==>
              file == code(old(m.machine.mem[..])[m.OpenSlot()], Intercept(m.config, call, fs))
  {
    status := m.ModInit();
    file := 0;
    if status == 0 {
      var calls, fsAfter;
      file, calls, fsAfter := m.Dispatch(code, call, fs);
    }
  }

  /**
   * After a load and an unload, an open dispatched through the table goes unchanged to
   * the entry the __NR_open slot held before the load, under the caller's address limit,
   * unless that entry was the override itself.
   */
  method OpenAfterUnload(m: Module, code: Code, call: OpenCall, fs: Segment)
    returns (status: int, file: int)
    requires m.Valid() && m.state == Uninstalled
    modifies m, m.machine, m.machine.mem
    ensures status == 0 ==> m.Valid() && m.table.Some?
    ensures status == 0 && old(m.machine.mem[..])[m.OpenSlot()] != m.overrideAddr ==>
              file == code(old(m.machine.mem[..])[m.OpenSlot()], Delegation(call, fs))
  {
    status := m.ModInit();
    file := 0;
    if status == 0 {
      m.ModExit();
      var calls, fsAfter;
      file, calls, fsAfter := m.Dispatch(code, call, fs);
    }
  }

  /**
   * Loading then unloading the module leaves kernel memory exactly as it was. A failed
   * load leaves CR0 untouched; a successful cycle leaves CR0 as it was with WP set.
   */
  method LoadThenUnload(m: Module) returns (status: int)
    requires m.Valid() && m.state == Uninstalled
    modifies m, m.machine, m.machine.mem
    ensures m.state == Uninstalled
    ensures m.machine.mem[..] == old(m.machine.mem[..])
    ensures status != 0 ==> m.machine.cr0 == old(m.machine.cr0)
    ensures status == 0 ==> m.machine.WriteProtected()
    ensures status == 0 ==> m.machine.cr0 & !CR0_WP == old(m.machine.cr0) & !CR0_WP
    ensures old(m.machine.WriteProtected()) ==> m.machine.cr0 == old(m.machine.cr0)
  {
    ghost var cr0 := m.machine.cr0;
    status := m.ModInit();
    if status == 0 {
      ghost var installed := m.machine.cr0;
      assert installed == WithWriteProtection(WithWriteProtection(cr0, false), true);
      m.ModExit();
      assert m.machine.cr0 == WithWriteProtection(WithWriteProtection(installed, false), true);
      TwoBrackets(cr0);
    }
  }

  /**
   * Two load/unload cycles of the module over the same kernel leave kernel memory
   * identical to its prior contents, and CR0 too when WP was set beforehand.
   */
  method LoadUnloadTwice(machine: Machine, config: Config, sysClose: Addr, overrideAddr: Addr)
    requires |config.extensions| <= P_EXTENSIONS_LEN_MAX
    modifies machine, machine.mem
    ensures machine.mem[..] == old(machine.mem[..])
    ensures old(machine.WriteProtected()) ==> machine.cr0 == old(machine.cr0)
  {
    var first := new Module(machine, config, sysClose, overrideAddr);
    var status := LoadThenUnload(first);
    var second := new Module(machine, config, sysClose, overrideAddr);
    status := LoadThenUnload(second);
  }
}
