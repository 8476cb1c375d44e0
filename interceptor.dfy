/**
 * sys_open_override (sys_open_interceptor.c:54-68): the function installed in the
 * __NR_open slot. When the path's extension equals one of the configured extensions
 * it opens the replacement file instead, through the saved original sys_open and with
 * the address limit switched to KERNEL_DS for the duration of that call; otherwise it
 * passes the call through unchanged.
 *
 * The original sys_open is not modelled: a `Code` value says what the code at an
 * address returns for a call, and the override's behaviour is stated as the calls it
 * makes into that code.
 */
module Interceptor {
  import opened Wrappers
  import opened Kernel
  import opened Extension

  /** Capacity of p_extensions. */
  const P_EXTENSIONS_LEN_MAX: nat := 5

  /**
   * The module parameters: p_replacement_filename (None when NULL) and the first
   * p_extensions_len entries of p_extensions.
   */
  datatype Config = Config(replacement: Option<string>, extensions: seq<string>)

  /** The calling thread's address limit (mm_segment_t), as switched by set_fs. */
  datatype Segment = UserDs | KernelDs

  /** The arguments of sys_open: a path, the open flags and the umode_t mode. */
  datatype OpenCall = OpenCall(filename: string, flags: int, mode: bv16)

  /** One call into original sys_open code: its arguments and the address limit in force. */
  datatype Delegation = Delegation(call: OpenCall, fs: Segment)

  /** The result the code at an address returns for a call (a descriptor or a negative error). */
  type Code = (Addr, Delegation) -> int

  /** The path's extension equals some configured extension (strcmp(...) == 0, case-sensitive). */
  predicate Matches(filename: string, extensions: seq<string>): (b: bool)
    ensures '.' !in filename ==> (b <==> "" in extensions)
    ensures forall i ::
              (0 <= i < |filename| && filename[i] == '.' &&
               (forall j :: i < j < |filename| ==> filename[j] != '.')) ==>
              (b <==> filename[i + 1..] in extensions)
    ensures extensions == [] ==> !b
  {
    exists i :: 0 <= i < |extensions| && extensions[i] == ExtensionOf(filename)
  }

  /** The call the override makes into the original sys_open for `call`, made under `fs`. */
  function Intercept(cfg: Config, call: OpenCall, fs: Segment): (d: Delegation)
    requires cfg.replacement.Some?
    ensures d.call.flags == call.flags && d.call.mode == call.mode
    ensures Matches(call.filename, cfg.extensions) ==>
              d.call.filename == cfg.replacement.value && d.fs == KernelDs
    ensures !Matches(call.filename, cfg.extensions) ==> d == Delegation(call, fs)
  {
    if Matches(call.filename, cfg.extensions) then
      Delegation(call.(filename := cfg.replacement.value), KernelDs)
    else
      Delegation(call, fs)
  }

  /** With no configured extension every call passes through unchanged. */
  lemma NoExtensionsPassThrough(replacement: string, call: OpenCall, fs: Segment)
    ensures Intercept(Config(Some(replacement), []), call, fs) == Delegation(call, fs)
  {
  }

  /**
   * Redirection depends on the final dot segment only: `name.ext` is redirected exactly
   * when `ext` is configured, whatever `name` contains.
   */
  lemma RedirectsByFinalSegment(cfg: Config, name: string, ext: string, flags: int, mode: bv16, fs: Segment)
    requires cfg.replacement.Some? && '.' !in ext
    ensures var d := Intercept(cfg, OpenCall(name + "." + ext, flags, mode), fs);
            (ext in cfg.extensions ==> d == Delegation(OpenCall(cfg.replacement.value, flags, mode), KernelDs)) &&
            (ext !in cfg.extensions ==> d == Delegation(OpenCall(name + "." + ext, flags, mode), fs))
  {
    NameDotExt(name, ext);
    if ext in cfg.extensions {
      var i :| 0 <= i < |cfg.extensions| && cfg.extensions[i] == ext;
      assert Matches(name + "." + ext, cfg.extensions);
    }
  }

  /**
   * The override as the C code runs it: try the configured extensions in order; on the
   * first equal one save the address limit, switch to KERNEL_DS, call the original with
   * the replacement path, restore the limit and return the result; when none is equal,
   * call the original with the arguments as given.
   * `calls` lists every call made into the original, in order; `fsAfter` is the address
   * limit on return.
   */
  method SysOpenOverride(cfg: Config, original: Addr, code: Code, filename: string, flags: int, mode: bv16, fs: Segment)
    returns (file: int, calls: seq<Delegation>, fsAfter: Segment)
    requires cfg.replacement.Some?
    ensures calls == [Intercept(cfg, OpenCall(filename, flags, mode), fs)]
    ensures file == code(original, calls[0])
    ensures fsAfter == fs
  {
    calls := [];
    var i := 0;
    while i < |cfg.extensions|
      invariant 0 <= i <= |cfg.extensions|
      invariant forall j :: 0 <= j < i ==> cfg.extensions[j] != ExtensionOf(filename)
    {
      var ext := FileExtension(filename);
      if ext == cfg.extensions[i] {
        var oldFs := fs;
        var current := KernelDs;
        var d := Delegation(OpenCall(cfg.replacement.value, flags, mode), current);
        file := code(original, d);
        calls := calls + [d];
        current := oldFs;
        fsAfter := current;
        return;
      }
      i := i + 1;
    }
    var d := Delegation(OpenCall(filename, flags, mode), fs);
    file := code(original, d);
    calls := calls + [d];
    fsAfter := fs;
  }

  /** The worked example: "song.mp3" is redirected to the replacement, "doc.txt" is not. */
  lemma RedirectExample(flags: int, mode: bv16, fs: Segment)
    ensures var cfg := Config(Some("/opt/rick.mp4"), ["mp3"]);
            Intercept(cfg, OpenCall("song.mp3", flags, mode), fs)
              == Delegation(OpenCall("/opt/rick.mp4", flags, mode), KernelDs) &&
            Intercept(cfg, OpenCall("doc.txt", flags, mode), fs)
              == Delegation(OpenCall("doc.txt", flags, mode), fs)
  {
    var cfg := Config(Some("/opt/rick.mp4"), ["mp3"]);
    assert "song.mp3" == "song" + "." + "mp3";
    assert "doc.txt" == "doc" + "." + "txt";
    assert "mp3" in cfg.extensions && "txt" !in cfg.extensions;
    RedirectsByFinalSegment(cfg, "song", "mp3", flags, mode, fs);
    RedirectsByFinalSegment(cfg, "doc", "txt", flags, mode, fs);
  }
}
