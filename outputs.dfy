/**
 * `remove_outputs`: every code cell of a notebook loses its outputs, in
 * place; no other cell and no other part of a cell changes.
 */
module Outputs {
  import opened Cells

  /** A cell after `remove_outputs` has visited it. */
  function Cleared(c: JCell): JCell {
    if c.cellType == Code then c.(outputs := []) else c
  }

  /** The cells after `remove_outputs`. */
  function ClearedAll(cs: seq<JCell>): (r: seq<JCell>)
    ensures |r| == |cs|
  {
    seq(|cs|, i requires 0 <= i < |cs| => Cleared(cs[i]))
  }

  /** `remove_outputs(nb)` on the notebook's list of cells. */
  method RemoveOutputs(cells: array<JCell>)
    modifies cells
    ensures cells[..] == ClearedAll(old(cells[..]))
  {
    var i := 0;
    while i < cells.Length
      invariant 0 <= i <= cells.Length
      invariant forall j :: 0 <= j < i ==> cells[j] == Cleared(old(cells[j]))
      invariant forall j :: i <= j < cells.Length ==> cells[j] == old(cells[j])
    {
      cells[i] := Cleared(cells[i]);
      i := i + 1;
    }
  }

  /**
   * Afterwards no code cell has outputs, and every cell keeps its type,
   * its text and its metadata; cells other than code cells keep their
   * outputs too.
   */
  lemma ClearedAllEffect(cs: seq<JCell>)
    ensures forall i :: 0 <= i < |cs| && cs[i].cellType == Code ==> ClearedAll(cs)[i].outputs == []
    ensures forall i :: 0 <= i < |cs| ==>
              var c := ClearedAll(cs)[i];
              c.cellType == cs[i].cellType && c.source == cs[i].source && c.metadata == cs[i].metadata
              && (cs[i].cellType != Code ==> c == cs[i])
  {
  }

  /** Clearing twice is clearing once. */
  lemma ClearedAllIdempotent(cs: seq<JCell>)
    ensures ClearedAll(ClearedAll(cs)) == ClearedAll(cs)
  {
  }
}
