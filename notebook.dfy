/**
 * `NoteBook`: a loaded notebook with geopyter's bookkeeping. Building one
 * classifies every cell, stamps the user metadata (read from, and cut out
 * of, the first cell) and the git metadata into every cell's `geopyter`
 * namespace, and records the user metadata and the imported libraries in
 * the notebook's own namespace.
 */
module Book {
  import opened Outcomes
  import opened Text
  import opened Metadata
  import opened Cells
  import opened UserMeta
  import opened Libs

  /** A notebook as read from disk: its cells and its metadata. */
  datatype Raw = Raw(cells: seq<JCell>, metadata: Meta)

  /** A cell's metadata after the two `set_metadata` calls of `NoteBook.__init__`. */
  function Stamp(m: Meta, user: Meta, git: Json): Meta {
    m[Namespace := JObj(user["git" := git])]
  }

  /** A cell after construction: the first one also loses its metadata lines. */
  function StampedCell(c: JCell, first: bool, user: Meta, content: string, git: Json): JCell {
    var c1 := if first then c.(source := content) else c;
    c1.(metadata := Stamp(c.metadata, user, git))
  }

  /**
   * The cells of a built notebook and its user metadata. A notebook without
   * cells fails when the first cell is read; a first cell without a title
   * leaves the user-metadata cache unset, and reading it back fails; a
   * failing git lookup fails on the first cell, after the user metadata.
   */
  function Prepared(raw: Raw, git: Result<Json>): Result<(Doc, Meta)> {
    if |raw.cells| == 0 then Err(IndexError)
    else
      match UserMetadata(raw.cells[0].source)
      case None => Err(AttributeError)
      case Some(uc) =>
        var g :- git;
        var ks := KindsOf(raw);
        var cs := StampedCells(raw, uc, g);
        Ok((DocOf(cs, ks), uc.0))
  }

  /** The `Cell` wrappers: each notebook cell paired with the kind it was given. */
  function DocOf(cs: seq<JCell>, ks: seq<Kind>): (doc: Doc)
    requires |cs| == |ks|
    ensures |doc| == |cs| && forall i :: 0 <= i < |cs| ==> doc[i].kind == ks[i] && doc[i].jp == cs[i]
  {
    seq(|cs|, i requires 0 <= i < |cs| => Cell(ks[i], cs[i]))
  }

  /** A built notebook: its cells, its metadata, its user-metadata cache and its library table. */
  datatype Built = Built(doc: Doc, metadata: Meta, user: Meta, libs: map<string, Json>)

  /**
   * `NoteBook.__init__` after the file is read. The notebook's namespace is
   * the user-metadata dict itself, so the `libs` entry written into the
   * namespace shows in the cache as well. It fails when the cells cannot
   * be prepared, and otherwise when an imported package cannot be imported.
   */
  function Build(raw: Raw, git: Result<Json>, version: string -> Option<Json>): (r: Result<Built>)
    ensures r.Ok? <==> Prepared(raw, git).Ok? && LibTable(Prepared(raw, git).value.0, version).Ok?
    ensures Prepared(raw, git).Err? ==> r == Err(Prepared(raw, git).error)
    ensures Prepared(raw, git).Ok? && r.Err? ==> r.error == LibTable(Prepared(raw, git).value.0, version).error
  {
    var p :- Prepared(raw, git);
    var libs :- LibTable(p.0, version);
    var user := p.1["libs" := JObj(libs)];
    Ok(Built(p.0, raw.metadata[Namespace := JObj(user)], user, libs))
  }

  /** `defaultdict(list)` read at `k`. */
  function StructureOf(st: map<Kind, seq<nat>>, k: Kind): seq<nat> {
    if k in st then st[k] else []
  }

  class NoteBook {
    var path: string
    /** `self.nb.cells`: the notebook format's cells. */
    var cells: seq<JCell>
    /** `self.nb.metadata`. */
    var metadata: Meta
    /** The kind of each `Cell` wrapper in `self.cells`, fixed when it was built. */
    var kinds: seq<Kind>
    var structure: map<Kind, seq<nat>>
    /** The `user_metadata` cache, absent until first read. */
    var userMetadata: Option<Meta>
    /** The `libs` cache. */
    var libs: Option<map<string, Json>>

    /** The cells as geopyter sees them: kind and notebook cell. */
    function Doc(): Doc
      reads this
      requires |kinds| == |cells|
    {
      DocOf(cells, kinds)
    }

    /** The notebook just read, before any bookkeeping. */
    constructor Read(path: string, raw: Raw)
      ensures this.path == path && cells == raw.cells && metadata == raw.metadata
      ensures kinds == [] && structure == map[] && userMetadata == None && libs == None
    {
      this.path := path;
      cells := raw.cells;
      metadata := raw.metadata;
      kinds := [];
      structure := map[];
      userMetadata := None;
      libs := None;
    }

    /** `NoteBook.get_metadata` (and `Cell.get_metadata`, which reads the same notebook-level store). */
    function GetMetadata(nm: Option<string>, ns: Option<string>): Result<Option<Json>>
      reads this
    {
      Metadata.GetMetadata(metadata, nm, ns)
    }

    /** `NoteBook.set_metadata`: the notebook-level store, updated in place. */
    method SetMetadata(val: Json, nm: Option<string>, ns: Option<string>) returns (r: Result<()>)
      requires ns.Some? || nm.Some?
      modifies this
      ensures r.Ok? <==> Metadata.SetMetadata(old(metadata), val, nm, ns).Ok?
      ensures r.Ok? ==> metadata == Metadata.SetMetadata(old(metadata), val, nm, ns).value
      ensures r.Ok? ==> GetMetadata(nm, ns) == Ok(Some(val))
      ensures r.Err? ==> metadata == old(metadata)
      ensures path == old(path) && cells == old(cells) && kinds == old(kinds) && structure == old(structure)
      ensures userMetadata == old(userMetadata) && libs == old(libs)
    {
      var m := Metadata.SetMetadata(metadata, val, nm, ns);
      if m.Err? {
        return Err(m.error);
      }
      metadata := m.value;
      return Ok(());
    }

    /** `Cell.set_metadata` on cell `idx`: that cell's own store, updated in place. */
    method SetCellMetadata(idx: nat, val: Json, nm: Option<string>, ns: Option<string>) returns (r: Result<()>)
      requires idx < |cells| && (ns.Some? || nm.Some?)
      modifies this
      ensures r.Ok? <==> Metadata.SetMetadata(old(cells[idx].metadata), val, nm, ns).Ok?
      ensures r.Ok? ==> cells == old(cells)[idx := old(cells[idx]).(metadata := Metadata.SetMetadata(old(cells[idx].metadata), val, nm, ns).value)]
      ensures r.Err? ==> cells == old(cells)
      ensures path == old(path) && metadata == old(metadata) && kinds == old(kinds) && structure == old(structure)
      ensures userMetadata == old(userMetadata) && libs == old(libs)
    {
      var m := Metadata.SetMetadata(cells[idx].metadata, val, nm, ns);
      if m.Err? {
        return Err(m.error);
      }
      cells := cells[idx := cells[idx].(metadata := m.value)];
      return Ok(());
    }

    /**
     * `get_user_metadata`: the first read parses the first cell, caches the
     * metadata and replaces the cell's text by the lines without a key;
     * later reads give the cache back.
     */
    method GetUserMetadata() returns (r: Result<Meta>)
      modifies this
      ensures old(userMetadata).Some? ==> r == Ok(old(userMetadata).value) && cells == old(cells) && userMetadata == old(userMetadata)
      ensures old(userMetadata).None? && |old(cells)| == 0 ==> r == Err(IndexError) && cells == old(cells) && userMetadata == None
      ensures old(userMetadata).None? && |old(cells)| > 0 ==>
                match UserMetadata(old(cells)[0].source)
                case None => r == Err(AttributeError) && cells == old(cells) && userMetadata == None
                case Some(uc) => r == Ok(uc.0) && userMetadata == Some(uc.0)
                                 && cells == old(cells)[0 := old(cells)[0].(source := uc.1)]
      ensures path == old(path) && metadata == old(metadata) && kinds == old(kinds) && structure == old(structure)
      ensures libs == old(libs)
    {
      if userMetadata.Some? {
        return Ok(userMetadata.value);
      }
      if |cells| == 0 {
        return Err(IndexError);
      }
      var src := cells[0].source;
      if !IsTitle(src) {
        return Err(AttributeError);
      }
      var meta, content := ScanMetadataLines(SplitLines(src));
      userMetadata := Some(meta);
      cells := cells[0 := cells[0].(source := content)];
      return Ok(meta);
    }

    /**
     * `get_libs`: scan the code cells once and cache the table; an import
     * that raises leaves the cache unset.
     */
    method GetLibs(version: string -> Option<Json>) returns (r: Result<map<string, Json>>)
      requires |kinds| == |cells|
      modifies this
      ensures path == old(path) && cells == old(cells) && metadata == old(metadata) && kinds == old(kinds)
      ensures structure == old(structure) && userMetadata == old(userMetadata)
      ensures old(libs).Some? ==> r == Ok(old(libs).value) && libs == old(libs)
      ensures old(libs).None? ==> r == LibTable(Doc(), version)
      ensures libs == if r.Ok? then Some(r.value) else None
    {
      if libs.Some? {
        return Ok(libs.value);
      }
      var names := ScanImports(Doc());
      var tops := set n | n in names :: TopLevel(n);
      if exists t :: t in tops && t != "" && version(t).None? {
        return Err(ImportError);
      }
      if "" in tops {
        return Err(ValueError);
      }
      var table := Versions(tops, version);
      libs := Some(table);
      return Ok(table);
    }
  }

  /** The kinds the cells get when they are wrapped. */
  function KindsOf(raw: Raw): (ks: seq<Kind>)
    ensures |ks| == |raw.cells|
  {
    seq(|raw.cells|, j requires 0 <= j < |raw.cells| => KindOf(raw.cells[j]))
  }

  /** Every cell stamped, the first one also rewritten. */
  function StampedCells(raw: Raw, uc: (Meta, string), git: Json): (cs: seq<JCell>)
    ensures |cs| == |raw.cells|
  {
    seq(|raw.cells|, j requires 0 <= j < |raw.cells| => StampedCell(raw.cells[j], j == 0, uc.0, uc.1, git))
  }

  /** The state after `i` passes of the constructor's loop, once the user metadata is at hand. */
  predicate LoopState(nb: NoteBook, raw: Raw, git: Result<Json>, i: nat)
    reads nb
  {
    |raw.cells| > 0 && UserMetadata(raw.cells[0].source).Some? && git.Ok? && i <= |raw.cells|
    && var uc := UserMetadata(raw.cells[0].source).value;
       nb.userMetadata == Some(uc.0) && nb.libs == None
       && nb.cells == StampedCells(raw, uc, git.value)[..i] + raw.cells[i..]
       && nb.kinds == KindsOf(raw)[..i]
  }

  /**
   * `NoteBook.__init__` after the file is read: wrap and classify each cell
   * on its text as it stands when it is wrapped, stamp its metadata, file it
   * under its kind; then write the user metadata and the library table into
   * the notebook's namespace.
   */
  method Open(path: string, raw: Raw, git: Result<Json>, version: string -> Option<Json>) returns (r: Result<NoteBook>)
    ensures r.Ok? <==> Build(raw, git, version).Ok?
    ensures r.Err? ==> r.error == Build(raw, git, version).error
    ensures r.Ok? ==>
              var b := Build(raw, git, version).value;
              var nb := r.value;
              fresh(nb) && nb.path == path && |nb.kinds| == |nb.cells|
              && nb.Doc() == b.doc && nb.metadata == b.metadata && nb.userMetadata == Some(b.user) && nb.libs == Some(b.libs)
              && forall k :: StructureOf(nb.structure, k) == Structure(b.doc, k)
  {
    var nb := new NoteBook.Read(path, raw);
    var i := 0;
    while i < |nb.cells|
      invariant i == 0 ==> nb.cells == raw.cells && nb.kinds == [] && nb.structure == map[] && nb.userMetadata == None && nb.libs == None
      invariant i > 0 ==> LoopState(nb, raw, git, i) && Prepared(raw, git).Ok?
      invariant i > 0 ==> forall k :: StructureOf(nb.structure, k) == Structure(Prepared(raw, git).value.0[..i], k)
      invariant nb.path == path && nb.metadata == raw.metadata && |nb.cells| == |raw.cells|
      invariant i <= |nb.cells|
    {
      var ok := WrapCell(nb, raw, git, i);
      if !ok {
        return Err(Prepared(raw, git).error);
      }
      i := i + 1;
    }
    ghost var st := nb.structure;
    ghost var doc: Doc := [];
    ghost var user: Meta := map[];
    if |nb.cells| > 0 {
      DocIsPrepared(nb, raw, git);
      doc := Prepared(raw, git).value.0;
      user := Prepared(raw, git).value.1;
    }
    var done := Finish(nb, version, doc, user);
    if done.Err? {
      return Err(done.error);
    }
    BuildIsPrepared(raw, git, version);
    assert doc[..|raw.cells|] == doc;
    assert nb.structure == st;
    return Ok(nb);
  }

  /** What `Build` adds to `Prepared`. */
  lemma BuildIsPrepared(raw: Raw, git: Result<Json>, version: string -> Option<Json>)
    requires Prepared(raw, git).Ok? && LibTable(Prepared(raw, git).value.0, version).Ok?
    ensures var p := Prepared(raw, git).value;
            var libs := LibTable(p.0, version).value;
            Build(raw, git, version)
            == Ok(Built(p.0, raw.metadata[Namespace := JObj(p.1["libs" := JObj(libs)])], p.1["libs" := JObj(libs)], libs))
  {
  }

  /** One pass of the loop of `NoteBook.__init__`, on cell `i`; false when the user metadata cannot be read. */
  method WrapCell(nb: NoteBook, raw: Raw, git: Result<Json>, i: nat) returns (ok: bool)
    requires i < |raw.cells| && |nb.cells| == |raw.cells|
    requires i == 0 ==> nb.cells == raw.cells && nb.kinds == [] && nb.structure == map[] && nb.userMetadata == None && nb.libs == None
    requires i > 0 ==> LoopState(nb, raw, git, i) && Prepared(raw, git).Ok?
    requires i > 0 ==> forall k :: StructureOf(nb.structure, k) == Structure(Prepared(raw, git).value.0[..i], k)
    modifies nb
    ensures ok <==> Prepared(raw, git).Ok?
    ensures ok ==> LoopState(nb, raw, git, i + 1)
    ensures ok ==> forall k :: StructureOf(nb.structure, k) == Structure(Prepared(raw, git).value.0[..i + 1], k)
    ensures nb.path == old(nb.path) && nb.metadata == old(nb.metadata) && |nb.cells| == |raw.cells|
  {
    assert nb.cells[i] == raw.cells[i];
    var kind := KindOf(nb.cells[i]);
    var user := nb.GetUserMetadata();
    if user.Err? || git.Err? {
      return false;
    }
    var uc := UserMetadata(raw.cells[0].source).value;
    ghost var before := nb.cells;
    StampCell(nb, i, uc.0, git.value);
    CellsStep(raw, uc, git.value, i, before, nb.cells);
    ghost var doc := Prepared(raw, git).value.0;
    ghost var st := nb.structure;
    FileCell(nb, i, kind);
    KindsStep(raw, git, i);
    StructureStep(doc, i);
    if i == 0 {
      assert doc[..0] == [];
    }
    forall k ensures StructureOf(nb.structure, k) == Structure(doc[..i + 1], k) {
      assert StructureOf(st, k) == Structure(doc[..i], k);
    }
    return true;
  }

  /** The two `set_metadata` calls on cell `i`: the user metadata as the namespace, then `git` inside it. */
  method StampCell(nb: NoteBook, i: nat, user: Meta, git: Json)
    requires i < |nb.cells|
    modifies nb
    ensures nb.cells == old(nb.cells)[i := old(nb.cells[i]).(metadata := Stamp(old(nb.cells[i].metadata), user, git))]
    ensures nb.path == old(nb.path) && nb.metadata == old(nb.metadata) && nb.kinds == old(nb.kinds)
    ensures nb.structure == old(nb.structure) && nb.userMetadata == old(nb.userMetadata) && nb.libs == old(nb.libs)
  {
    StampIsTwoWrites(nb.cells[i].metadata, user, git);
    var s1 := nb.SetCellMetadata(i, JObj(user), None, Some(Namespace));
    var s2 := nb.SetCellMetadata(i, git, Some("git"), Some(Namespace));
  }

  /** `self.cells.append(cell)` and `cell_types[cell.cell_type].append(i)`. */
  method FileCell(nb: NoteBook, i: nat, kind: Kind)
    modifies nb
    ensures nb.kinds == old(nb.kinds) + [kind]
    ensures forall k :: StructureOf(nb.structure, k) == StructureOf(old(nb.structure), k) + (if k == kind then [i] else [])
    ensures nb.path == old(nb.path) && nb.metadata == old(nb.metadata) && nb.cells == old(nb.cells)
    ensures nb.userMetadata == old(nb.userMetadata) && nb.libs == old(nb.libs)
  {
    nb.kinds := nb.kinds + [kind];
    nb.structure := nb.structure[kind := StructureOf(nb.structure, kind) + [i]];
  }

  /**
   * The end of `NoteBook.__init__`: the user metadata, then the library
   * table, into the notebook's namespace. `doc` and `user` are the cells
   * and the user metadata the loop has left behind.
   */
  method Finish(nb: NoteBook, version: string -> Option<Json>, ghost doc: Doc, ghost user: Meta) returns (ok: Result<()>)
    requires |nb.kinds| == |nb.cells|
    requires |nb.cells| == 0 ==> nb.userMetadata == None
    requires |nb.cells| > 0 ==> nb.userMetadata == Some(user) && nb.libs == None && nb.Doc() == doc
    modifies nb
    ensures |nb.cells| == 0 ==> ok == Err(IndexError)
    ensures |nb.cells| > 0 ==> (ok.Ok? <==> LibTable(doc, version).Ok?)
    ensures |nb.cells| > 0 && ok.Err? ==> ok.error == LibTable(doc, version).error
    ensures ok.Ok? ==>
              var libs := LibTable(doc, version).value;
              |nb.kinds| == |nb.cells| && nb.Doc() == doc
              && nb.metadata == old(nb.metadata)[Namespace := JObj(user["libs" := JObj(libs)])]
              && nb.userMetadata == Some(user["libs" := JObj(libs)]) && nb.libs == Some(libs)
    ensures nb.path == old(nb.path) && nb.structure == old(nb.structure) && nb.cells == old(nb.cells)
  {
    var u := nb.GetUserMetadata();
    if u.Err? {
      return Err(u.error);
    }
    var got := nb.GetLibs(version);
    if got.Err? {
      return Err(got.error);
    }
    var table := got.value;
    NestedWrite(nb.metadata, u.value, "libs", JObj(table));
    var s3 := nb.SetMetadata(JObj(u.value), None, Some(Namespace));
    var s4 := nb.SetMetadata(JObj(table), Some("libs"), Some(Namespace));
    // The cache and the namespace are one dict, so the cache sees `libs` too.
    nb.userMetadata := Some(u.value["libs" := JObj(table)]);
    return Ok(());
  }

  /** After the loop the wrapped cells are those `Prepared` describes. */
  lemma DocIsPrepared(nb: NoteBook, raw: Raw, git: Result<Json>)
    requires LoopState(nb, raw, git, |raw.cells|) && Prepared(raw, git).Ok?
    ensures |nb.kinds| == |nb.cells| && nb.Doc() == Prepared(raw, git).value.0
  {
    var uc := UserMetadata(raw.cells[0].source).value;
    var n := |raw.cells|;
    assert raw.cells[n..] == [];
    assert StampedCells(raw, uc, git.value)[..n] == StampedCells(raw, uc, git.value);
    assert KindsOf(raw)[..n] == KindsOf(raw);
    assert nb.cells == StampedCells(raw, uc, git.value);
  }

  /** Replacing a namespace by a dict, then writing `key` inside it. */
  lemma NestedWrite(m: Meta, user: Meta, key: string, val: Json)
    ensures Metadata.SetMetadata(m, JObj(user), None, Some(Namespace)) == Ok(m[Namespace := JObj(user)])
    ensures Metadata.SetMetadata(m[Namespace := JObj(user)], val, Some(key), Some(Namespace))
            == Ok(m[Namespace := JObj(user[key := val])])
  {
    if Namespace !in m {
      assert m[Namespace := JObj(map[])][Namespace := JObj(user)] == m[Namespace := JObj(user)];
    }
    var m1 := m[Namespace := JObj(user)];
    assert m1[Namespace] == JObj(user);
    assert m1[Namespace := JObj(user[key := val])] == m[Namespace := JObj(user[key := val])];
  }

  /** The two metadata writes `NoteBook.__init__` makes on each cell: the user metadata, then `git` inside it. */
  lemma StampIsTwoWrites(m: Meta, user: Meta, git: Json)
    ensures Metadata.SetMetadata(m, JObj(user), None, Some(Namespace)) == Ok(m[Namespace := JObj(user)])
    ensures Metadata.SetMetadata(m[Namespace := JObj(user)], git, Some("git"), Some(Namespace)) == Ok(Stamp(m, user, git))
  {
    NestedWrite(m, user, "git", git);
  }

  /** Stamping cell `i` extends the stamped prefix by one cell. */
  lemma CellsStep(raw: Raw, uc: (Meta, string), git: Json, i: nat, before: seq<JCell>, after: seq<JCell>)
    requires i < |raw.cells|
    requires i == 0 ==> before == raw.cells[0 := raw.cells[0].(source := uc.1)]
    requires i > 0 ==> before == StampedCells(raw, uc, git)[..i] + raw.cells[i..]
    requires after == before[i := before[i].(metadata := Stamp(before[i].metadata, uc.0, git))]
    ensures after == StampedCells(raw, uc, git)[..i + 1] + raw.cells[i + 1..]
  {
    var stamped := StampedCells(raw, uc, git);
    var current := if i == 0 then raw.cells[0].(source := uc.1) else raw.cells[i];
    if i == 0 {
      FirstReplaced(raw.cells, current);
      assert stamped[..0] == [];
    } else {
      ConsTail(stamped[..i], raw.cells, i);
    }
    assert current.(metadata := Stamp(raw.cells[i].metadata, uc.0, git)) == stamped[i];
    ReplaceMiddle(stamped[..i], current, raw.cells[i + 1..], stamped[i]);
    assert stamped[..i] + [stamped[i]] == stamped[..i + 1];
  }

  /** Filing cell `i` extends the prefix of kinds by its kind, the kind `Prepared` gives it. */
  lemma KindsStep(raw: Raw, git: Result<Json>, i: nat)
    requires i < |raw.cells|
    ensures KindsOf(raw)[..i] + [KindOf(raw.cells[i])] == KindsOf(raw)[..i + 1]
    ensures Prepared(raw, git).Ok? ==> Prepared(raw, git).value.0[i].kind == KindOf(raw.cells[i])
  {
  }

  lemma FirstReplaced<T>(s: seq<T>, x: T)
    requires |s| > 0
    ensures s[0 := x] == [x] + s[1..]
  {
  }

  lemma ConsTail<T>(a: seq<T>, s: seq<T>, i: nat)
    requires i < |s|
    ensures a + s[i..] == a + [s[i]] + s[i + 1..]
  {
    assert s[i..] == [s[i]] + s[i + 1..];
  }

  lemma ReplaceMiddle<T>(a: seq<T>, x: T, b: seq<T>, y: T)
    ensures (a + [x] + b)[|a| := y] == a + [y] + b
  {
  }

  lemma StructureStep(doc: Doc, i: nat)
    requires i < |doc|
    ensures forall k :: Structure(doc[..i + 1], k) == Structure(doc[..i], k) + (if doc[i].kind == k then [i] else [])
  {
    assert doc[..i + 1][..i] == doc[..i];
  }
}
