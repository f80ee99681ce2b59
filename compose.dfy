/**
 * `NoteBook.compose`: the cells of a composition notebook, with every
 * include cell replaced, where it stands, by the cells its directive
 * selects from the notebooks it names. Other cells pass through. Each
 * named notebook is opened afresh; nothing is cached and included
 * notebooks are not composed in turn.
 */
module Compose {
  import opened Outcomes
  import opened Text
  import opened Metadata
  import opened Cells
  import opened Selector
  import opened Book
  import opened Paths

  /**
   * What opening a notebook needs from outside: the file system (the
   * contents of a file, or the error reading it raised), the git metadata
   * of a notebook's path (or the git library's failure), and the version of
   * an imported library (`None` when the library cannot be imported).
   */
  datatype Env = Env(load: string -> Result<Raw>, git: string -> Result<Json>, version: string -> Option<Json>)

  /** Where an include's path points: `"atoms/" + nb_pth.strip()`. */
  function AtomPath(path: string): string {
    "atoms/" + Strip(path)
  }

  /** `NoteBook(path)`: read the file, with `.ipynb` added if missing, and build the notebook. */
  function Load(env: Env, path: string): Result<Doc> {
    var raw :- env.load(ReadPath(path, true));
    var b :- Build(raw, env.git(path), env.version);
    Ok(b.doc)
  }

  /** `get_jp_cells_by_id`: the notebook cells at `ids`; an id past the end raises `IndexError`. */
  function CellsById(doc: Doc, ids: seq<nat>): Result<seq<JCell>> {
    if forall k :: 0 <= k < |ids| ==> ids[k] < |doc| then
      Ok(seq(|ids|, k requires 0 <= k < |ids| => doc[ids[k]].jp))
    else Err(IndexError)
  }

  /** The cells of a section: its ids resolved in `doc`, then fetched. */
  function SectionCells(doc: Doc, section: string): Result<seq<JCell>> {
    var ids :- Sections(section, doc, false);
    CellsById(doc, ids)
  }

  /** The `for section in sections` loop: the cells of each section in turn. */
  function Selected(doc: Doc, sections: seq<string>): Result<seq<JCell>> {
    Concat(seq(|sections|, k requires 0 <= k < |sections| => SectionCells(doc, sections[k])))
  }

  /** What an include cell with text `source` turns into. */
  function Expansion(env: Env, source: string): Result<seq<JCell>> {
    var directive :- ParseInclude(source);
    var doc :- Load(env, AtomPath(directive.0));
    Selected(doc, directive.1)
  }

  /** What one cell contributes to the composed notebook. */
  function Piece(env: Env, c: Cell): Result<seq<JCell>> {
    if c.kind == Include then Expansion(env, c.jp.source) else Ok([c.jp])
  }

  function Pieces(env: Env, doc: Doc): (ps: seq<Result<seq<JCell>>>)
    ensures |ps| == |doc|
  {
    seq(|doc|, i requires 0 <= i < |doc| => Piece(env, doc[i]))
  }

  /** The composed cells: every cell's contribution in turn. */
  function Composed(env: Env, doc: Doc): Result<seq<JCell>> {
    Concat(Pieces(env, doc))
  }

  // ---------------------------------------------------------------- lists built piece by piece

  /**
   * The parts appended one after the other, as the loops of `compose` do
   * with `extend`; the first part that fails raises its error.
   */
  function Concat<T>(parts: seq<Result<seq<T>>>): Result<seq<T>>
    decreases |parts|
  {
    if |parts| == 0 then Ok([])
    else
      var front :- Concat(parts[..|parts| - 1]);
      var last :- parts[|parts| - 1];
      Ok(front + last)
  }

  function Sum(xs: seq<nat>): nat
    decreases |xs|
  {
    if |xs| == 0 then 0 else Sum(xs[..|xs| - 1]) + xs[|xs| - 1]
  }

  /** The length of each part that succeeds. */
  function Lengths<T>(parts: seq<Result<seq<T>>>): (ls: seq<nat>)
    ensures |ls| == |parts|
  {
    seq(|parts|, k requires 0 <= k < |parts| => if parts[k].Ok? then |parts[k].value| else 0)
  }

  /** The concatenation fails exactly when one of the parts fails. */
  lemma {:induction false} ConcatFails<T>(parts: seq<Result<seq<T>>>)
    ensures Concat(parts).Ok? <==> forall k :: 0 <= k < |parts| ==> parts[k].Ok?
    decreases |parts|
  {
    if |parts| > 0 {
      var front := parts[..|parts| - 1];
      ConcatFails(front);
      assert forall k :: 0 <= k < |front| ==> front[k] == parts[k];
    }
  }

  /** The concatenation is as long as all the parts together. */
  lemma {:induction false} ConcatLength<T>(parts: seq<Result<seq<T>>>)
    requires Concat(parts).Ok?
    ensures |Concat(parts).value| == Sum(Lengths(parts))
    decreases |parts|
  {
    if |parts| > 0 {
      var front := parts[..|parts| - 1];
      ConcatLength(front);
      assert Lengths(parts)[..|parts| - 1] == Lengths(front);
    }
  }

  /** The concatenation is as long as the parts, measured one by one. */
  lemma ConcatLengthWith<T>(parts: seq<Result<seq<T>>>, ws: seq<nat>)
    requires Concat(parts).Ok? && |ws| == |parts|
    requires forall k :: 0 <= k < |parts| && parts[k].Ok? ==> |parts[k].value| == ws[k]
    ensures |Concat(parts).value| == Sum(ws)
  {
    ConcatFails(parts);
    ConcatLength(parts);
    assert Lengths(parts) == ws;
  }

  /** What the first `j` parts make up opens the whole concatenation. */
  lemma {:induction false} ConcatPrefix<T>(parts: seq<Result<seq<T>>>, j: nat)
    requires Concat(parts).Ok? && j <= |parts|
    ensures Concat(parts[..j]).Ok?
    ensures var p := Concat(parts[..j]).value;
            |p| <= |Concat(parts).value| && Concat(parts).value[..|p|] == p
    decreases |parts|
  {
    if j < |parts| {
      var front := parts[..|parts| - 1];
      ConcatPrefix(front, j);
      assert front[..j] == parts[..j];
    } else {
      assert parts[..j] == parts;
    }
  }

  /** Part `i` sits in the concatenation right after the parts before it. */
  lemma ConcatAt<T>(parts: seq<Result<seq<T>>>, i: nat)
    requires Concat(parts).Ok? && i < |parts|
    ensures Concat(parts[..i]).Ok? && parts[i].Ok?
    ensures var out := Concat(parts).value;
            var at := |Concat(parts[..i]).value|;
            at + |parts[i].value| <= |out| && out[at..at + |parts[i].value|] == parts[i].value
  {
    ConcatPrefix(parts, i + 1);
    var upto := parts[..i + 1];
    assert upto[..i] == parts[..i];
    var out := Concat(parts).value;
    var p := Concat(upto).value;
    var front := Concat(parts[..i]).value;
    assert p == front + parts[i].value;
    assert out[|front|..|front| + |parts[i].value|] == p[|front|..];
  }

  /** Once the first parts fail, the whole concatenation fails the same way. */
  lemma {:induction false} ConcatFailureSticks<T>(parts: seq<Result<seq<T>>>, j: nat)
    requires j <= |parts| && Concat(parts[..j]).Err?
    ensures Concat(parts) == Concat(parts[..j])
    decreases |parts|
  {
    if j < |parts| {
      var front := parts[..|parts| - 1];
      assert front[..j] == parts[..j];
      ConcatFailureSticks(front, j);
    } else {
      assert parts[..j] == parts;
    }
  }

  /** A failing part ends the concatenation with its error. */
  lemma ConcatStops<T>(parts: seq<Result<seq<T>>>, i: nat)
    requires i < |parts| && Concat(parts[..i]).Ok? && parts[i].Err?
    ensures Concat(parts) == Err(parts[i].error)
  {
    assert parts[..i + 1][..i] == parts[..i];
    ConcatFailureSticks(parts, i + 1);
  }

  /** One more part, appended. */
  lemma ConcatSnoc<T>(parts: seq<Result<seq<T>>>, i: nat, acc: seq<T>, next: seq<T>)
    requires i < |parts| && Concat(parts[..i]) == Ok(acc) && parts[i] == Ok(next)
    ensures Concat(parts[..i + 1]) == Ok(acc + next)
  {
    assert parts[..i + 1][..i] == parts[..i];
  }

  // ---------------------------------------------------------------- properties of compose

  /** Without include cells, composing gives back the notebook's own cells. */
  lemma {:induction false} ComposedNoIncludes(env: Env, doc: Doc)
    requires forall i :: 0 <= i < |doc| ==> doc[i].kind != Include
    ensures Composed(env, doc) == Ok(seq(|doc|, i requires 0 <= i < |doc| => doc[i].jp))
    decreases |doc|
  {
    var n := |doc|;
    if n > 0 {
      var front := doc[..n - 1];
      ComposedNoIncludes(env, front);
      var ps := Pieces(env, doc);
      var jf := seq(|front|, i requires 0 <= i < |front| => front[i].jp);
      var last := doc[n - 1].jp;
      assert ps[..n - 1] == Pieces(env, front);
      assert ps[n - 1] == Ok([last]);
      ConcatSnoc(ps, n - 1, jf, [last]);
      assert ps[..n] == ps;
      assert seq(n, i requires 0 <= i < n => doc[i].jp) == jf + [last];
    } else {
      assert Composed(env, doc) == Concat(Pieces(env, doc)) == Ok([]);
      assert seq(|doc|, i requires 0 <= i < |doc| => doc[i].jp) == [];
    }
  }

  /** Composition fails exactly when some cell's contribution fails; the first such error is raised. */
  lemma ComposedFails(env: Env, doc: Doc)
    ensures Composed(env, doc).Err? <==> exists i :: 0 <= i < |doc| && Piece(env, doc[i]).Err?
  {
    ConcatFails(Pieces(env, doc));
    if exists i :: 0 <= i < |doc| && Piece(env, doc[i]).Err? {
      var i :| 0 <= i < |doc| && Piece(env, doc[i]).Err?;
      assert Pieces(env, doc)[i].Err?;
    }
  }

  /**
   * Each cell's contribution sits in the composed notebook exactly where the
   * cell stood: right after what the cells before it contribute. For an
   * include that is its expansion, for any other cell the cell itself.
   */
  lemma ComposedAt(env: Env, doc: Doc, i: nat)
    requires Composed(env, doc).Ok? && i < |doc|
    ensures Composed(env, doc[..i]).Ok? && Piece(env, doc[i]).Ok?
    ensures var out := Composed(env, doc).value;
            var at := |Composed(env, doc[..i]).value|;
            var piece := Piece(env, doc[i]).value;
            at + |piece| <= |out| && out[at..at + |piece|] == piece
            && (doc[i].kind == Include ==> Expansion(env, doc[i].jp.source) == Ok(piece))
            && (doc[i].kind != Include ==> piece == [doc[i].jp])
  {
    var ps := Pieces(env, doc);
    ConcatAt(ps, i);
    assert ps[..i] == Pieces(env, doc[..i]);
  }

  /** The number of ids each section selects, as it resolves. */
  function IdCounts(doc: Doc, sections: seq<string>): seq<nat> {
    Lengths(seq(|sections|, k requires 0 <= k < |sections| => Sections(sections[k], doc, false)))
  }

  /** The number of cells one cell contributes: one, or all the ids its include selects. */
  function Width(env: Env, c: Cell): nat {
    if c.kind != Include then 1
    else
      match ParseInclude(c.jp.source)
      case Err(_) => 0
      case Ok(directive) =>
        match Load(env, AtomPath(directive.0))
        case Err(_) => 0
        case Ok(doc) => Sum(IdCounts(doc, directive.1))
  }

  /** A section's cells are as many as its ids. */
  lemma SectionCellsLength(doc: Doc, section: string)
    requires SectionCells(doc, section).Ok?
    ensures Sections(section, doc, false).Ok?
    ensures |SectionCells(doc, section).value| == |Sections(section, doc, false).value|
  {
  }

  /** The cells of the sections are as many as the ids the sections select. */
  lemma SelectedLength(doc: Doc, sections: seq<string>)
    requires Selected(doc, sections).Ok?
    ensures |Selected(doc, sections).value| == Sum(IdCounts(doc, sections))
  {
    var parts := seq(|sections|, k requires 0 <= k < |sections| => SectionCells(doc, sections[k]));
    var ws := IdCounts(doc, sections);
    forall k | 0 <= k < |parts| && parts[k].Ok? ensures |parts[k].value| == ws[k] {
      SectionCellsLength(doc, sections[k]);
    }
    ConcatLengthWith(parts, ws);
  }

  lemma PieceWidth(env: Env, c: Cell)
    requires Piece(env, c).Ok?
    ensures |Piece(env, c).value| == Width(env, c)
  {
    if c.kind == Include {
      var directive := ParseInclude(c.jp.source).value;
      SelectedLength(Load(env, AtomPath(directive.0)).value, directive.1);
    }
  }

  /**
   * The composed notebook has one cell per cell that is not an include,
   * plus, for every include, one cell per id that each of its sections
   * selects.
   */
  lemma ComposedLength(env: Env, doc: Doc)
    requires Composed(env, doc).Ok?
    ensures |Composed(env, doc).value| == Sum(seq(|doc|, i requires 0 <= i < |doc| => Width(env, doc[i])))
  {
    var ps := Pieces(env, doc);
    var ws := seq(|doc|, i requires 0 <= i < |doc| => Width(env, doc[i]));
    forall i | 0 <= i < |ps| && ps[i].Ok? ensures |ps[i].value| == ws[i] {
      PieceWidth(env, doc[i]);
    }
    ConcatLengthWith(ps, ws);
  }

  // ---------------------------------------------------------------- the loops

  /** `NoteBook.compose`. */
  method ComposeCells(nb: NoteBook, env: Env) returns (r: Result<seq<JCell>>)
    requires |nb.kinds| == |nb.cells|
    ensures r == Composed(env, nb.Doc())
  {
    var doc := nb.Doc();
    ghost var ps := Pieces(env, doc);
    var newCells: seq<JCell> := [];
    var i := 0;
    while i < |doc|
      invariant 0 <= i <= |doc|
      invariant Concat(ps[..i]) == Ok(newCells)
    {
      var piece := CellPiece(env, doc[i]);
      assert piece == ps[i];
      if piece.Err? {
        ConcatStops(ps, i);
        return Err(piece.error);
      }
      ConcatSnoc(ps, i, newCells, piece.value);
      newCells := newCells + piece.value;
      i := i + 1;
    }
    assert ps[..i] == ps;
    return Ok(newCells);
  }

  /** One cell of the loop: an include is expanded, any other cell kept. */
  method CellPiece(env: Env, c: Cell) returns (r: Result<seq<JCell>>)
    ensures r == Piece(env, c)
  {
    if c.kind == Include {
      r := ExpandInclude(env, c.jp.source);
    } else {
      r := Ok([c.jp]);
    }
  }

  /** One include cell: parse its directive, open the notebook it names, collect its sections. */
  method ExpandInclude(env: Env, source: string) returns (r: Result<seq<JCell>>)
    ensures r == Expansion(env, source)
  {
    var directive :- ParseInclude(source);
    var path := AtomPath(directive.0);
    var raw :- env.load(ReadPath(path, true));
    var book := Open(path, raw, env.git(path), env.version);
    if book.Err? {
      return Err(book.error);
    }
    var included := book.value;
    r := SelectCells(included.Doc(), directive.1);
  }

  /** The `for section in sections` loop over an opened notebook. */
  method SelectCells(doc: Doc, sections: seq<string>) returns (r: Result<seq<JCell>>)
    ensures r == Selected(doc, sections)
  {
    ghost var parts := seq(|sections|, k requires 0 <= k < |sections| => SectionCells(doc, sections[k]));
    var cells: seq<JCell> := [];
    var k := 0;
    while k < |sections|
      invariant 0 <= k <= |sections|
      invariant Concat(parts[..k]) == Ok(cells)
    {
      var found := FetchSection(doc, sections[k]);
      assert found == parts[k];
      if found.Err? {
        ConcatStops(parts, k);
        return Err(found.error);
      }
      ConcatSnoc(parts, k, cells, found.value);
      cells := cells + found.value;
      k := k + 1;
    }
    assert parts[..k] == parts;
    return Ok(cells);
  }

  /** One section: its ids, then its cells. */
  method FetchSection(doc: Doc, section: string) returns (found: Result<seq<JCell>>)
    ensures found == SectionCells(doc, section)
  {
    var ids := GetSections(section, doc, false);
    if ids.Err? {
      found := Err(ids.error);
    } else {
      found := CellsById(doc, ids.value);
    }
  }
}
