/**
 * Cells of a notebook and geopyter's classification of them: any cell
 * whose source mentions `@include` is an include cell, every other cell
 * keeps the type the notebook format gives it.
 */
module Cells {
  import opened Text
  import opened Metadata

  /** The `cell_type` of a notebook cell. */
  datatype CellType = Markdown | Code | Raw

  /** A cell as the notebook format stores it. */
  datatype JCell = JCell(cellType: CellType, source: string, metadata: Meta, outputs: seq<Json>)

  /** geopyter's kind of a cell: its notebook type, or `include`. */
  datatype Kind = Include | Typed(t: CellType)

  /** geopyter's `Cell`: the kind fixed when it was built, and the notebook cell it wraps. */
  datatype Cell = Cell(kind: Kind, jp: JCell)

  /** A loaded notebook: its cells in order; positions are the addresses of everything else. */
  type Doc = seq<Cell>

  const IncludeMarker: string := "@include"

  /** `Cell.__init__` with `is_include`: the kind a cell is given when it is wrapped. */
  function KindOf(c: JCell): (k: Kind)
    ensures k == Include <==> Contains(c.source, IncludeMarker)
    ensures k != Include ==> k.t == c.cellType
  {
    if Contains(c.source, IncludeMarker) then Include else Typed(c.cellType)
  }

  /** The source text of cell `i`, as `Cell.source()` reads it. */
  function Source(doc: Doc, i: nat): string
    requires i < |doc|
  {
    doc[i].jp.source
  }

  /** `structure[k]`: the positions of the cells of kind `k`, in the order they were appended. */
  function Structure(doc: Doc, k: Kind): (ids: seq<nat>)
    ensures forall i :: 0 <= i < |ids| ==> ids[i] < |doc|
    decreases |doc|
  {
    if |doc| == 0 then []
    else Structure(doc[..|doc| - 1], k) + (if doc[|doc| - 1].kind == k then [|doc| - 1] else [])
  }

  predicate StrictlyIncreasing(s: seq<nat>) {
    forall i, j :: 0 <= i < j < |s| ==> s[i] < s[j]
  }

  /**
   * `structure[k]` lists exactly the positions of the cells of kind `k`,
   * each once and in ascending order.
   */
  lemma {:induction false} StructureExact(doc: Doc, k: Kind)
    ensures forall i: nat :: i in Structure(doc, k) <==> i < |doc| && doc[i].kind == k
    ensures StrictlyIncreasing(Structure(doc, k))
    decreases |doc|
  {
    if |doc| > 0 {
      var front := doc[..|doc| - 1];
      StructureExact(front, k);
      var s := Structure(doc, k);
      assert s == Structure(front, k) + (if doc[|doc| - 1].kind == k then [|doc| - 1] else []);
      forall i: nat | i < |front| ensures front[i] == doc[i] { }
      forall i, j | 0 <= i < j < |s| ensures s[i] < s[j] {
        if j >= |Structure(front, k)| {
          assert s[i] in Structure(front, k);
        }
      }
    }
  }
}
