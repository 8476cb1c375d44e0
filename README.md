# sys-open-interceptor, modelled in Dafny

A model of `sys_open_interceptor.c`. This Linux kernel module hooks the `__NR_open` entry
of the system-call table. A path whose extension is one of up to five configured
extensions is redirected to one fixed replacement file. Every other call goes through
unchanged to the original `sys_open`.

The model has seven modules, one per component of the C file:

- `WriteProtect`: `set_write_protection`. It is the bit arithmetic on CR0 that sets or
  clears the WP flag (bit 16, mask `0x10000`; Intel 64 and IA-32 Architectures SDM
  Vol. 3A, section 2.5 "Control Registers"). The 32-bit `int` constant is complemented
  in 32 bits and sign-extended to 64 bits, as C does when it combines it with the
  `unsigned long` CR0 value.
- `Extension`: `file_extension`. A backward scan for the last `'.'`. It is proved equal
  to a reference definition. That definition is characterised as "the dot-free suffix
  that follows the last dot, or empty".
- `Locator`: `find_sys_call_table`. A first-match scan of kernel memory for a position
  whose `__NR_close` slot holds the address of `sys_close`.
- `Kernel`: the machine state the module touches. It holds a window of kernel memory
  (pointer-sized words, word 0 at `PAGE_OFFSET`) as an `array`, and CR0 as a `bv64`
  field. A ghost log records every CR0 write and memory store in order. A store into
  the table region requires WP to be clear, as the hardware does.
- `Interceptor`: `sys_open_override`. The original `sys_open` is a function parameter
  (`Code`). The override is specified by the calls it makes into that code, and by the
  address limit (`set_fs` segment) in force during each call.
- `Lifecycle`: `mod_init` and `mod_exit`, as methods of a class `Module`. The class
  holds the globals `g_sys_call_table` and `g_sys_open_original` and the immutable
  module parameters. A reload is a fresh `Module` over the same `Machine`. `Dispatch`
  models the kernel calling through the hooked slot, which ties the installed override to
  the entry `mod_init` saved.
- `Wrappers`: `Option`, standing for a pointer that may be NULL.

System-call numbers are those of x86_64 (`__NR_open` = 2, `__NR_close` = 3). Error codes
are `-EINVAL` = -22 and `-EAGAIN` = -11.

The scan step is `table += sizeof(void*)` on a `ulong **`. Pointer arithmetic scales
the 8 added to it by the 8-byte element size, so each step advances eight pointers
(64 bytes). The model's candidates are therefore the words at multiples of `STRIDE` = 8
from `PAGE_OFFSET`.

## Model

| member | source | states |
|---|---|---|
| `WriteProtect.WideMasks` | sys_open_interceptor.c:26-30 | the `int` constant `0x10000` and its complement `~0x10000`, widened to 64 bits as C widens them, are exactly the WP mask and its 64-bit complement (the upper 32 bits of CR0 are kept) |
| `WriteProtect.WithWriteProtection` | sys_open_interceptor.c:25-32 | the value written back to CR0 has WP set exactly when `protect` is true |
| `WriteProtect.WithWriteProtectionSetsOnlyWP` | sys_open_interceptor.c:25-32 | after `set_write_protection(p)`, the WP bit of CR0 equals `p` and every other bit is as it was read |
| `WriteProtect.WithWriteProtectionIdempotent` | sys_open_interceptor.c:25-32 | setting the flag to the same value twice gives the same CR0 as setting it once |
| `WriteProtect.WithWriteProtectionNoOp` | sys_open_interceptor.c:25-32 | setting the flag to the value it already has leaves CR0 unchanged |
| `WriteProtect.UnprotectThenProtect` | sys_open_interceptor.c:90-93 | the off/on bracket leaves CR0 equal to its old value with bit 16 set, so CR0 is exactly restored when WP was set beforehand |
| `WriteProtect.TwoBrackets` | sys_open_interceptor.c:90-102 | the brackets of one load and one unload leave WP set and all other bits as before |
| `Kernel.Machine.SetWriteProtection` | sys_open_interceptor.c:25-32 | CR0 becomes the read value with WP set or cleared, WP equals the argument, and one CR0 write is logged |
| `Kernel.Machine.Store` | sys_open_interceptor.c:92 | a single-word store, allowed only while WP is clear; it changes exactly that word and logs one store |
| `Extension.LastDot` | sys_open_interceptor.c:46-49 | the result is the index of a `'.'` with no `'.'` after it in the scanned prefix, or None when the prefix has no `'.'` |
| `Extension.ExtensionOf` | sys_open_interceptor.c:44-52 | the extension is a suffix of the name and contains no `'.'`; it is preceded by a `'.'` exactly when the name contains one; it is empty when the name has no `'.'` |
| `Extension.ExtensionAfterLastDot` | sys_open_interceptor.c:46-49 | the extension is exactly the characters after the last `'.'` |
| `Extension.NoDotNoExtension` | sys_open_interceptor.c:51 | a name without `'.'` (including the empty name) has extension `""` |
| `Extension.TrailingDotNoExtension` | sys_open_interceptor.c:46-49 | a name ending in `'.'` has extension `""` |
| `Extension.NameDotExt` | sys_open_interceptor.c:44-52 | `name + "." + ext` with a dot-free `ext` has extension `ext`, whatever dots `name` contains: only the final segment counts |
| `Extension.FileExtension` | sys_open_interceptor.c:44-52 | the backward index loop returns exactly `ExtensionOf(filename)` |
| `Locator.LocateFrom` | sys_open_interceptor.c:34-42 | the result is a candidate on the 8-word grid whose `__NR_close` slot holds `sys_close`, and no earlier candidate passes; None means no candidate in the scanned range passes |
| `Locator.Locate` | sys_open_interceptor.c:34-42 | the scan from `PAGE_OFFSET` returns a candidate on the 8-word grid whose `__NR_close` slot holds `sys_close`, with no passing candidate before it; NULL means no candidate passes |
| `Locator.LocateIsFirstMatch` | sys_open_interceptor.c:36-39 | whenever some candidate passes, the scan finds a table, at or before that candidate |
| `Locator.FindSysCallTable` | sys_open_interceptor.c:34-42 | the scanning loop returns exactly the first passing candidate, or NULL |
| `Interceptor.Matches` | sys_open_interceptor.c:57-58 | in terms of the path's characters: a path without `'.'` matches exactly when `""` is configured (so a configured `""` redirects every dot-free path); a path whose last `'.'` is at `i` matches exactly when the characters after `i` are configured; an empty list matches nothing |
| `Interceptor.Intercept` | sys_open_interceptor.c:54-68 | flags and mode always pass through. When the path's extension equals a configured one, the call goes to the original with the replacement path under KERNEL_DS; otherwise it goes unchanged under the caller's address limit |
| `Interceptor.NoExtensionsPassThrough` | sys_open_interceptor.c:57-67 | with `p_extensions_len == 0` every call passes through unchanged |
| `Interceptor.RedirectsByFinalSegment` | sys_open_interceptor.c:57-61 | `name.ext` is redirected to `(replacement, flags, mode)` exactly when `ext` is configured, and otherwise passed through with its own arguments |
| `Interceptor.SysOpenOverride` | sys_open_interceptor.c:54-68 | the override calls the original exactly once, with the arguments `Intercept` gives. It returns that call's result unchanged and restores the caller's address limit |
| `Interceptor.RedirectExample` | sys_open_interceptor.c:54-68 | with extensions `["mp3"]` and replacement `/opt/rick.mp4`, `song.mp3` is redirected and `doc.txt` is passed through |
| `Lifecycle.Module.constructor` | sys_open_interceptor.c:13-23 | a freshly loaded module has NULL `g_sys_call_table` and `g_sys_open_original` and is not installed |
| `Lifecycle.Module.ModInit` | sys_open_interceptor.c:70-97 | it returns `-EINVAL` for a missing replacement (checked first) or no extensions, `-EAGAIN` when no table is found, and 0 otherwise. `-EINVAL` leaves `g_sys_call_table` as it was; `-EAGAIN` leaves it NULL. On failure memory, CR0 and the log are unchanged. On success it saves the old `__NR_open` entry and stores the override there, leaving all other words unchanged. The log shows exactly WP off, that one store, WP on, and WP ends set |
| `Lifecycle.Module.ModExit` | sys_open_interceptor.c:99-105 | it writes the saved entry back into the `__NR_open` slot whatever the slot holds at that moment, even a hook installed after this module's, and changes no other word. The log shows exactly WP off, that one store, WP on, and WP ends set |
| `Lifecycle.Module.Dispatch` | sys_open_interceptor.c:54-68 | an open dispatched through the table's `__NR_open` slot: while the slot holds the override, the saved `g_sys_open_original` is called once with the arguments `Intercept` gives; otherwise the slot's entry is called once with the call unchanged. The caller's address limit is restored either way |
| `Lifecycle.OpenAfterLoad` | sys_open_interceptor.c:61-92 | after a successful `mod_init`, an open reaches the entry the `__NR_open` slot held before the load, with the replacement path under `KERNEL_DS` for a configured extension and unchanged otherwise |
| `Lifecycle.OpenAfterUnload` | sys_open_interceptor.c:90-101 | after a successful `mod_init` and then `mod_exit`, an open goes unchanged, under the caller's address limit, to the entry the slot held before the load (unless that entry was the override itself) |
| `Lifecycle.LoadThenUnload` | sys_open_interceptor.c:70-105 | `mod_init` then `mod_exit` leaves kernel memory identical to its prior contents. CR0 is untouched on failure. After a successful cycle WP is set and every other CR0 bit is as before, so CR0 is exactly restored when WP was set beforehand |
| `Lifecycle.LoadUnloadTwice` | sys_open_interceptor.c:70-105 | two load/unload cycles over the same kernel leave memory identical to its prior contents, and CR0 too when WP was set beforehand |

## Left out

- Logging: the `printk` calls (lines 63, 75, 80, 86, 95, 104) are left out. They are fire-and-forget and do not affect control flow.
- Module plumbing: the `module_param`/`module_param_array`/`MODULE_*` macros and `module_init`/`module_exit` registration are left out. The parameters arrive as an immutable `Config`, at most five extensions long. "`mod_exit` runs only after a successful `mod_init`" is a precondition of `ModExit`. The `S_IWUSR` permission of `module_param(p_replacement_filename, …)` (line 20) lets root rewrite the replacement path through sysfs after load, and line 61 reads its current value on every call. The immutable `Config` fixes that path at load time.
- Hardware: `read_cr0`/`write_cr0` become a `bv64` field of `Machine`. The fault on a store while WP is set is modelled only as the precondition of `Machine.Store`.
- Scan range: the scan from `PAGE_OFFSET` to `ULLONG_MAX` is cut to the modelled memory window. A candidate is considered only while its `__NR_close` slot lies inside the window. Reads of unmapped memory are not modelled.
- Concurrency: other CPUs dispatching through the hooked slot, and the atomicity of the single pointer store, are outside this sequential model.
- The real `sys_open` is not modelled. It is the `Code` parameter: what the code at an address returns for a call made under a given address limit.
- `get_fs`/`set_fs` reduce to a `Segment` value passed into and out of the override. `KERNEL_DS` is one of its two values.
- `strlen` and the `int i` index of `file_extension` assume names shorter than `INT_MAX`. C strings are `seq<char>` without the terminating NUL, and the model does not exclude an interior NUL. C ends a string at its first NUL wherever it is: it reads `"a\0b.mp3"` as `"a"`, with extension `""`, where the model gives `"mp3"`.
- SysOpenOverride: the filename is a user-space pointer that `file_extension` reads with `strlen` and indexing directly (lines 46-47, called from line 58), with no `copy_from_user`. A NULL or unmapped pointer therefore faults in kernel mode, and with SMAP any such access faults, where the original `sys_open` would return `-EFAULT`. The model takes the filename as an already readable string and does not model that fault.
- Pointers: function pointers and `ulong *` values are `Addr` naturals, with 0 as NULL. The casts between pointer types are not modelled.
- OpenAfterUnload: states nothing when the `__NR_open` slot already held the override's address before the load. The saved entry is then the override itself, and a call after the unload would run the override again.
