/**
 * The file-name rules of `read_nb` and `NoteBook.write`: `.ipynb` is
 * appended when it is missing, and the default output of `write` is the
 * notebook's own path with `.ipynb` replaced by `-compiled`.
 */
module Paths {
  import opened Outcomes
  import opened Text

  const Ext: string := ".ipynb"

  /** `read_nb`: append the extension if it is missing and `ext` is set. */
  function ReadPath(path: string, ext: bool): (r: string)
    ensures IsPrefix(path, r)
    ensures ext ==> EndsWith(r, Ext)
    ensures !ext || EndsWith(path, Ext) ==> r == path
  {
    if !EndsWith(path, Ext) && ext then path + Ext else path
  }

  /** Reading through the rule twice names the same file as reading through it once. */
  lemma ReadPathIdempotent(path: string, ext: bool)
    ensures ReadPath(ReadPath(path, ext), ext) == ReadPath(path, ext)
  {
  }

  /**
   * `re.sub('(\.ipynb)$', '-compiled', path)`: `$` matches at the very end
   * and also just before a final newline, and at most one of the two places
   * can be preceded by `.ipynb`.
   */
  function SubCompiled(path: string): string {
    if EndsWith(path, Ext) then path[..|path| - |Ext|] + "-compiled"
    else if EndsWith(path, Ext + "\n") then path[..|path| - |Ext| - 1] + "-compiled\n"
    else path
  }

  /** `NoteBook.write`'s target, from the path the notebook was opened with and the optional `fn`. */
  function WritePath(nbPath: string, fn: Option<string>): (r: string)
    ensures EndsWith(r, Ext)
  {
    var target := if fn.None? then SubCompiled(nbPath) else fn.value;
    if !EndsWith(target, Ext) then target + Ext else target
  }

  /** Opened by its full file name, a notebook is written beside itself as `<name>-compiled.ipynb`. */
  lemma WriteBesideSource(nbPath: string)
    requires EndsWith(nbPath, Ext)
    ensures WritePath(nbPath, None) == nbPath[..|nbPath| - |Ext|] + "-compiled" + Ext
    ensures WritePath(nbPath, None) != ReadPath(nbPath, true)
  {
    var stem := nbPath[..|nbPath| - |Ext|];
    var out := stem + "-compiled";
    assert out[|out| - |Ext|..] == "mpiled";
    assert !EndsWith(out, Ext);
    assert |WritePath(nbPath, None)| != |nbPath|;
  }

  /**
   * As written: a notebook opened by its name without the extension (which
   * `read_nb` adds) is written by default back to the very file it was read
   * from, since the substitution finds no `.ipynb` to replace.
   */
  lemma WriteOverwritesSource(nbPath: string)
    requires !EndsWith(nbPath, Ext) && !EndsWith(nbPath, Ext + "\n")
    ensures WritePath(nbPath, None) == ReadPath(nbPath, true)
  {
  }

  /** The discrepancy on a concrete name: `intro` is read from and written to `intro.ipynb`. */
  lemma WriteOverwritesIntro()
    ensures ReadPath("intro", true) == "intro.ipynb"
    ensures WritePath("intro", None) == "intro.ipynb"
  {
    assert !EndsWith("intro", Ext);
    assert !EndsWith("intro", Ext + "\n");
    WriteOverwritesSource("intro");
  }

  /**
   * The default output as evidently intended: the file the notebook was read
   * from, with `.ipynb` replaced by `-compiled.ipynb`.
   */
  function CompiledPath(nbPath: string, fn: Option<string>): (r: string)
    ensures EndsWith(r, Ext)
  {
    if fn.Some? then ReadPath(fn.value, true)
    else
      var source := ReadPath(nbPath, true);
      source[..|source| - |Ext|] + "-compiled" + Ext
  }

  /** The corrected default never names the file the notebook was read from, and agrees with `write` where `write` is right. */
  lemma CompiledPathSeparate(nbPath: string, fn: Option<string>)
    ensures CompiledPath(nbPath, None) != ReadPath(nbPath, true)
    ensures fn.Some? ==> CompiledPath(nbPath, fn) == WritePath(nbPath, fn)
    ensures EndsWith(nbPath, Ext) ==> CompiledPath(nbPath, None) == WritePath(nbPath, None)
  {
    CompiledLonger(nbPath);
    if fn.Some? {
      GivenName(nbPath, fn.value);
    }
    if EndsWith(nbPath, Ext) {
      CompiledBeside(nbPath);
    }
  }

  /** The corrected default is the source's name grown by `-compiled`. */
  lemma CompiledLonger(nbPath: string)
    ensures |CompiledPath(nbPath, None)| == |ReadPath(nbPath, true)| + |"-compiled"|
  {
    var source := ReadPath(nbPath, true);
    var stem := source[..|source| - |Ext|];
    assert |stem| == |source| - |Ext|;
    assert CompiledPath(nbPath, None) == stem + "-compiled" + Ext;
  }

  lemma GivenName(nbPath: string, name: string)
    ensures CompiledPath(nbPath, Some(name)) == WritePath(nbPath, Some(name))
  {
  }

  lemma CompiledBeside(nbPath: string)
    requires EndsWith(nbPath, Ext)
    ensures CompiledPath(nbPath, None) == WritePath(nbPath, None)
  {
    WriteBesideSource(nbPath);
    assert ReadPath(nbPath, true) == nbPath;
  }
}
