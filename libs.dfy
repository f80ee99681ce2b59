/**
 * The import scan of `NoteBook.get_libs`: every line of every code cell
 * that opens with `from ` or `import ` names a module, and the notebook
 * records the top-level package of each with its version.
 */
module Libs {
  import opened Outcomes
  import opened Text
  import opened Metadata
  import opened Cells

  /** `\s` of a pattern without the Unicode flag: ASCII blanks only. */
  predicate IsRegexSpace(c: char) {
    c == ' ' || c == '\t' || c == '\n' || c == '\r' || c == '\U{B}' || c == '\U{C}'
  }

  /** The end of the run of non-blank characters starting at `i` (`\S+` is greedy). */
  function RunEnd(l: string, i: nat): (j: nat)
    requires i <= |l|
    ensures i <= j <= |l|
    ensures forall k :: i <= k < j ==> !IsRegexSpace(l[k])
    ensures j < |l| ==> IsRegexSpace(l[j])
    decreases |l| - i
  {
    if i < |l| && !IsRegexSpace(l[i]) then RunEnd(l, i + 1) else i
  }

  /** The non-blank run at `i`, if it is not empty. */
  function WordAt(l: string, i: nat): (r: Option<string>)
    requires i <= |l|
    ensures r.Some? ==> |r.value| >= 1 && forall k :: 0 <= k < |r.value| ==> !IsRegexSpace(r.value[k])
  {
    var j := RunEnd(l, i);
    if j == i then None else Some(l[i..j])
  }

  /** `re.match("(?:from|import) (\S+)", l).group(1)`. */
  function ImportName(l: string): (r: Option<string>)
    ensures r.Some? ==> |r.value| >= 1
  {
    if IsPrefix("from ", l) then WordAt(l, 5)
    else if IsPrefix("import ", l) then WordAt(l, 7)
    else None
  }

  /** The names the lines import. */
  function NamesInLines(lines: seq<string>): set<string>
    decreases |lines|
  {
    if |lines| == 0 then {}
    else NamesInLines(lines[..|lines| - 1])
         + (match ImportName(lines[|lines| - 1]) case Some(n) => {n} case None => {})
  }

  /** The names the lines of cell `c` import. */
  function CellNames(doc: Doc, c: nat): set<string>
    requires c < |doc|
  {
    NamesInLines(SplitLines(Source(doc, c)))
  }

  /** The union of a list of sets. */
  function Union<T>(ss: seq<set<T>>): set<T>
    decreases |ss|
  {
    if |ss| == 0 then {} else Union(ss[..|ss| - 1]) + ss[|ss| - 1]
  }

  /** The names the given cells import. */
  function NamesInCells(doc: Doc, ids: seq<nat>): set<string>
    requires forall k :: 0 <= k < |ids| ==> ids[k] < |doc|
  {
    Union(seq(|ids|, k requires 0 <= k < |ids| => CellNames(doc, ids[k])))
  }

  /** The set `libs`: every module named by an import line of a code cell. */
  function ImportNames(doc: Doc): set<string> {
    NamesInCells(doc, Structure(doc, Typed(Code)))
  }

  /** `l.split('.')[0]`: the top-level package of a module name. */
  function TopLevel(name: string): (t: string)
    ensures '.' !in t
  {
    Split(name, '.')[0]
  }

  /** The top-level packages of the imported names: the modules `get_libs` imports. */
  function TopNames(doc: Doc): (tops: set<string>)
    ensures forall t :: t in tops ==> '.' !in t
  {
    set n | n in ImportNames(doc) :: TopLevel(n)
  }

  /**
   * Whether `importlib.import_module(t)` raises: always for the empty name
   * (left by a relative import such as `from . import x`), otherwise when
   * the lookup `version` finds no module.
   */
  predicate ImportFails(t: string, version: string -> Option<Json>) {
    t == "" || version(t).None?
  }

  /**
   * The dict `vlibs`: each top-level package with the version `version`
   * reports for it, or the exception of an import that fails. Python raises
   * for whichever failing name the set yields first; here the empty name's
   * ValueError shows only when no other import fails.
   */
  function LibTable(doc: Doc, version: string -> Option<Json>): (r: Result<map<string, Json>>)
    ensures r.Err? <==> exists t :: t in TopNames(doc) && ImportFails(t, version)
    ensures r.Err? ==> r.error == ImportError || r.error == ValueError
    ensures r.Ok? ==> r.value.Keys == TopNames(doc)
    ensures r.Ok? ==> forall t :: t in r.value ==> '.' !in t && version(t) == Some(r.value[t])
  {
    var tops := TopNames(doc);
    if exists t :: t in tops && t != "" && version(t).None? then Err(ImportError)
    else if "" in tops then Err(ValueError)
    else Ok(Versions(tops, version))
  }

  /** Each of `tops` with the version found for it. */
  function Versions(tops: set<string>, version: string -> Option<Json>): (m: map<string, Json>)
    requires forall t :: t in tops ==> version(t).Some?
    ensures m.Keys == tops && forall t :: t in m ==> version(t) == Some(m[t])
  {
    map t | t in tops :: version(t).value
  }

  /** The loop of `get_libs` over the lines of one cell. */
  method ScanLines(lines: seq<string>) returns (names: set<string>)
    ensures names == NamesInLines(lines)
  {
    names := {};
    var i := 0;
    while i < |lines|
      invariant 0 <= i <= |lines| && names == NamesInLines(lines[..i])
    {
      assert lines[..i + 1][..i] == lines[..i];
      var m := ImportName(lines[i]);
      if m.Some? {
        names := names + {m.value};
      }
      i := i + 1;
    }
    assert lines[..i] == lines;
  }

  /** The loop of `get_libs` over the code cells. */
  method ScanImports(doc: Doc) returns (names: set<string>)
    ensures names == ImportNames(doc)
  {
    var ids := Structure(doc, Typed(Code));
    names := {};
    var i := 0;
    ghost var sets := seq(|ids|, k requires 0 <= k < |ids| => CellNames(doc, ids[k]));
    while i < |ids|
      invariant 0 <= i <= |ids| && names == Union(sets[..i])
    {
      assert sets[..i + 1][..i] == sets[..i];
      var found := ScanLines(SplitLines(Source(doc, ids[i])));
      names := names + found;
      i := i + 1;
    }
    assert sets[..i] == sets;
  }

  // ---------------------------------------------------------------- properties

  /** A line imports a name exactly when it is `from ` or `import `, then that name, then a blank or the end. */
  lemma ImportNameRoundTrip(keyword: string, name: string, rest: string)
    requires keyword == "from" || keyword == "import"
    requires |name| >= 1 && forall k :: 0 <= k < |name| ==> !IsRegexSpace(name[k])
    requires rest == [] || IsRegexSpace(rest[0])
    ensures ImportName(keyword + " " + name + rest) == Some(name)
  {
    var l := keyword + " " + name + rest;
    var p := |keyword| + 1;
    assert l[..p] == keyword + " ";
    assert IsPrefix(keyword + " ", l);
    if keyword == "import" {
      assert !IsPrefix("from ", l) by { assert l[0] == 'i'; }
    }
    forall k | p <= k < p + |name| ensures !IsRegexSpace(l[k]) {
      assert l[k] == name[k - p];
    }
    if p + |name| < |l| {
      assert l[p + |name|] == rest[0];
    }
    RunEndIs(l, p, p + |name|);
    assert l[p..p + |name|] == name;
  }

  lemma RunEndIs(l: string, i: nat, j: nat)
    requires i <= j <= |l|
    requires forall k :: i <= k < j ==> !IsRegexSpace(l[k])
    requires j < |l| ==> IsRegexSpace(l[j])
    ensures RunEnd(l, i) == j
  {
  }

  /**
   * The converse: a line imports a name only when it is `from ` or
   * `import `, then that name, then a blank or the end.
   */
  lemma ImportNameShape(l: string) returns (kw: string, rest: string)
    ensures ImportName(l).Some? ==>
              (kw == "from" || kw == "import") && l == kw + " " + ImportName(l).value + rest
              && (rest == [] || IsRegexSpace(rest[0]))
  {
    kw, rest := "", "";
    if ImportName(l).Some? {
      kw := if IsPrefix("from ", l) then "from" else "import";
      var p := |kw| + 1;
      var j := RunEnd(l, p);
      rest := l[j..];
      assert l[..p] == kw + " ";
      assert l == kw + " " + l[p..j] + rest;
    }
  }

  lemma {:induction false} NamesInLinesExact(lines: seq<string>, n: string)
    ensures n in NamesInLines(lines) <==> exists i :: 0 <= i < |lines| && ImportName(lines[i]) == Some(n)
    decreases |lines|
  {
    if |lines| > 0 {
      var front := lines[..|lines| - 1];
      NamesInLinesExact(front, n);
      assert forall i :: 0 <= i < |front| ==> front[i] == lines[i];
      if exists i :: 0 <= i < |lines| && ImportName(lines[i]) == Some(n) {
        var i :| 0 <= i < |lines| && ImportName(lines[i]) == Some(n);
        if i < |front| {
          assert ImportName(front[i]) == Some(n);
        }
      }
    }
  }

  /** A member of a union is a member of one of the sets. */
  lemma {:induction false} UnionMembers<T>(ss: seq<set<T>>, x: T)
    ensures x in Union(ss) <==> exists k :: 0 <= k < |ss| && x in ss[k]
    decreases |ss|
  {
    if |ss| > 0 {
      var front := ss[..|ss| - 1];
      UnionMembers(front, x);
      if x in Union(front) {
        var k :| 0 <= k < |front| && x in front[k];
        assert front[k] == ss[k];
      }
      if exists k :: 0 <= k < |ss| && x in ss[k] {
        var k :| 0 <= k < |ss| && x in ss[k];
        if k < |front| {
          assert front[k] == ss[k];
        }
      }
    }
  }

  /** Some line of cell `c` imports `n`. */
  predicate CellImports(doc: Doc, c: nat, n: string)
    requires c < |doc|
  {
    exists i :: 0 <= i < |SplitLines(Source(doc, c))| && ImportName(SplitLines(Source(doc, c))[i]) == Some(n)
  }

  /**
   * The scan finds exactly the names imported by some line of some code
   * cell; include cells and markdown cells are never looked at.
   */
  lemma ImportNamesExact(doc: Doc, n: string)
    ensures n in ImportNames(doc) <==> exists c :: 0 <= c < |doc| && doc[c].kind == Typed(Code) && CellImports(doc, c, n)
  {
    var ids := Structure(doc, Typed(Code));
    StructureExact(doc, Typed(Code));
    var sets := seq(|ids|, k requires 0 <= k < |ids| => CellNames(doc, ids[k]));
    UnionMembers(sets, n);
    forall c | 0 <= c < |doc| ensures CellImports(doc, c, n) <==> n in CellNames(doc, c) {
      NamesInLinesExact(SplitLines(Source(doc, c)), n);
    }
    if n in ImportNames(doc) {
      var k :| 0 <= k < |sets| && n in sets[k];
      assert ids[k] in ids;
      assert CellImports(doc, ids[k], n);
    }
    if exists c :: 0 <= c < |doc| && doc[c].kind == Typed(Code) && CellImports(doc, c, n) {
      var c :| 0 <= c < |doc| && doc[c].kind == Typed(Code) && CellImports(doc, c, n);
      assert c in ids;
      var k :| 0 <= k < |ids| && ids[k] == c;
      assert n in sets[k];
    }
  }

  /**
   * The table is built exactly when no imported package fails to import,
   * and then its keys are exactly the top-level packages of the names
   * imported by some line of some code cell.
   */
  lemma LibsKeys(doc: Doc, version: string -> Option<Json>, t: string)
    ensures LibTable(doc, version).Err? <==>
              exists c, n :: 0 <= c < |doc| && doc[c].kind == Typed(Code) && CellImports(doc, c, n)
                             && ImportFails(TopLevel(n), version)
    ensures LibTable(doc, version).Ok? ==>
              (t in LibTable(doc, version).value <==>
                 exists c, n :: 0 <= c < |doc| && doc[c].kind == Typed(Code) && CellImports(doc, c, n) && TopLevel(n) == t)
  {
    if LibTable(doc, version).Err? {
      var u :| u in TopNames(doc) && ImportFails(u, version);
      var n :| n in ImportNames(doc) && TopLevel(n) == u;
      ImportNamesExact(doc, n);
    }
    if exists c, n :: 0 <= c < |doc| && doc[c].kind == Typed(Code) && CellImports(doc, c, n) && ImportFails(TopLevel(n), version) {
      var c, n :| 0 <= c < |doc| && doc[c].kind == Typed(Code) && CellImports(doc, c, n) && ImportFails(TopLevel(n), version);
      ImportNamesExact(doc, n);
      assert TopLevel(n) in TopNames(doc);
    }
    if LibTable(doc, version).Ok? && t in LibTable(doc, version).value {
      var n :| n in ImportNames(doc) && TopLevel(n) == t;
      ImportNamesExact(doc, n);
    }
    if exists c, n :: 0 <= c < |doc| && doc[c].kind == Typed(Code) && CellImports(doc, c, n) && TopLevel(n) == t {
      var c, n :| 0 <= c < |doc| && doc[c].kind == Typed(Code) && CellImports(doc, c, n) && TopLevel(n) == t;
      ImportNamesExact(doc, n);
      assert t in TopNames(doc);
    }
  }
}
