/**
 * file_extension (sys_open_interceptor.c:44-52): the text after the last '.' of a
 * file name, or the empty string when the name has no '.'.
 * C strings are modelled as `seq<char>` without the terminating NUL.
 */
module Extension {
  import opened Wrappers

  /** The index of the last '.' among the first `n` characters of `s`, if any. */
  function LastDot(s: string, n: nat): (r: Option<nat>)
    requires n <= |s|
    ensures r.Some? ==> r.value < n && s[r.value] == '.'
    ensures r.Some? ==> forall j :: r.value < j < n ==> s[j] != '.'
    ensures r.None? ==> forall j :: 0 <= j < n ==> s[j] != '.'
    decreases n
  {
    if n == 0 then None
    else if s[n - 1] == '.' then Some(n - 1)
    else LastDot(s, n - 1)
  }

  /**
   * The extension of a file name. It is the longest suffix of `s` without a '.',
   * provided that suffix is preceded by a '.'; it is empty when `s` has no '.'.
   */
  function ExtensionOf(s: string): (e: string)
    ensures |e| <= |s| && e == s[|s| - |e|..]
    ensures '.' !in e
    ensures '.' in s <==> |e| < |s| && s[|s| - |e| - 1] == '.'
    ensures '.' !in s ==> e == ""
  {
    match LastDot(s, |s|)
    case None => ""
    case Some(i) => s[i + 1..]
  }

  /** A '.' at index `i` with no '.' after it delimits the extension. */
  lemma ExtensionAfterLastDot(s: string, i: nat)
    requires i < |s| && s[i] == '.'
    requires forall j :: i < j < |s| ==> s[j] != '.'
    ensures ExtensionOf(s) == s[i + 1..]
  {
  }

  /** A name with no '.' has no extension. */
  lemma NoDotNoExtension(s: string)
    requires '.' !in s
    ensures ExtensionOf(s) == ""
  {
  }

  /** A name ending in '.' has an empty extension. */
  lemma TrailingDotNoExtension(s: string)
    requires |s| > 0 && s[|s| - 1] == '.'
    ensures ExtensionOf(s) == ""
  {
    ExtensionAfterLastDot(s, |s| - 1);
  }

  /**
   * Only the final dot-separated segment counts: `name.ext` has extension `ext`
   * whatever `name` is, including a name that itself contains dots.
   */
  lemma NameDotExt(name: string, ext: string)
    requires '.' !in ext
    ensures ExtensionOf(name + "." + ext) == ext
  {
    var s := name + "." + ext;
    assert s[|name|] == '.';
    forall j | |name| < j < |s|
      ensures s[j] != '.'
    {
      assert s[j] == ext[j - |name| - 1];
    }
    ExtensionAfterLastDot(s, |name|);
    assert s[|name| + 1..] == ext;
  }

  /**
   * The C loop: scan backwards from the last character for a '.', and return the
   * characters after it; return "" when the scan runs off the front.
   */
  method FileExtension(filename: string) returns (ext: string)
    ensures ext == ExtensionOf(filename)
  {
    var i: int := |filename| - 1;
    while i >= 0
      invariant -1 <= i < |filename|
      invariant forall j :: i < j < |filename| ==> filename[j] != '.'
      decreases i
    {
      if filename[i] == '.' {
        ExtensionAfterLastDot(filename, i);
        return filename[i + 1..];
      }
      i := i - 1;
    }
    NoDotNoExtension(filename);
    return "";
  }
}
