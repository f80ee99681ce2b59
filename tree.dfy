/**
 * `get_tree`: for every header of levels 4, 3 and 2, an edge from the
 * nearest earlier header of a shallower level. The candidate parents are
 * gathered across all the headers of one level without being reset, and
 * the largest of everything gathered so far is taken.
 */
module Tree {
  import opened Outcomes
  import opened Cells
  import opened Headers
  import opened Book

  /** An edge `[parent, child]` between two header cells. */
  datatype Edge = Edge(parent: nat, child: nat)

  /** `[c for c in candidates if c < child]`. */
  function Below(ids: seq<nat>, child: nat): (r: seq<nat>)
    ensures forall x :: x in r <==> x in ids && x < child
    decreases |ids|
  {
    if |ids| == 0 then []
    else
      var front := ids[..|ids| - 1];
      assert forall x :: x in ids <==> x in front || x == ids[|ids| - 1];
      Below(front, child) + (if ids[|ids| - 1] < child then [ids[|ids| - 1]] else [])
  }

  /**
   * What the `while parent_level > 0` loop has gathered for `child` once it
   * has visited the levels from `top` down to `pl + 1`.
   */
  function Collected(hs: Levels, top: int, pl: int, child: nat): (r: seq<nat>)
    requires HasLevels(hs) && 0 <= pl <= top <= 3
    ensures forall x :: x in r <==> exists l :: pl < l <= top && x in hs[l] && x < child
    decreases top - pl
  {
    if pl == top then []
    else
      var front := Collected(hs, top, pl + 1, child);
      assert forall x :: x in front + Below(hs[pl + 1], child)
               <==> x in front || (x in hs[pl + 1] && x < child);
      front + Below(hs[pl + 1], child)
  }

  /** All the parent candidates of a header of `level` at cell `child`. */
  function Candidates(hs: Levels, level: int, child: nat): seq<nat>
    requires HasLevels(hs) && 1 <= level <= 4
  {
    Collected(hs, level - 1, 0, child)
  }

  /** The `parents` list of one level after the headers `children` have been visited. */
  function Gathered(hs: Levels, level: int, children: seq<nat>): seq<nat>
    requires HasLevels(hs) && 1 <= level <= 4
    decreases |children|
  {
    if |children| == 0 then []
    else Gathered(hs, level, children[..|children| - 1]) + Candidates(hs, level, children[|children| - 1])
  }

  /** Python's `max` of a non-empty list. */
  function Max(s: seq<nat>): (m: nat)
    requires |s| > 0
    ensures m in s && forall x :: x in s ==> x <= m
    decreases |s|
  {
    if |s| == 1 then s[0]
    else
      var front := s[..|s| - 1];
      assert forall x :: x in s <==> x in front || x == s[|s| - 1];
      var m := Max(front);
      if m < s[|s| - 1] then s[|s| - 1] else m
  }

  /** The edges of one level, in the order of its headers; `max` of an empty list raises `ValueError`. */
  function LevelEdges(hs: Levels, level: int, children: seq<nat>): Result<seq<Edge>>
    requires HasLevels(hs) && 1 <= level <= 4
    decreases |children|
  {
    if |children| == 0 then Ok([])
    else
      var front :- LevelEdges(hs, level, children[..|children| - 1]);
      var parents := Gathered(hs, level, children);
      if |parents| == 0 then Err(ValueError)
      else Ok(front + [Edge(Max(parents), children[|children| - 1])])
  }

  /** The edges of levels 4 down to `lo`. */
  function EdgesDown(hs: Levels, lo: int): Result<seq<Edge>>
    requires HasLevels(hs) && 2 <= lo <= 5
    decreases 5 - lo
  {
    if lo == 5 then Ok([])
    else
      var deeper :- EdgesDown(hs, lo + 1);
      var here :- LevelEdges(hs, lo, hs[lo]);
      Ok(deeper + here)
  }

  /** `get_tree` on a header index. */
  function TreeOf(hs: Levels): Result<seq<Edge>>
    requires HasLevels(hs)
  {
    EdgesDown(hs, 2)
  }

  // ---------------------------------------------------------------- properties

  /** `p` is the nearest header before `child` among the levels shallower than `level`. */
  predicate IsNearest(hs: Levels, level: int, p: nat, child: nat)
    requires HasLevels(hs) && 1 <= level <= 4
  {
    p < child && (exists l :: 1 <= l < level && p in hs[l])
    && forall l, x :: 1 <= l < level && x in hs[l] && x < child ==> x <= p
  }

  /** The first header of `level`, if any, has a candidate parent. */
  predicate LevelOk(hs: Levels, level: int)
    requires HasLevels(hs) && 1 <= level <= 4
  {
    |hs[level]| == 0 || |Candidates(hs, level, hs[level][0])| > 0
  }

  predicate SortedLevels(hs: Levels)
    requires HasLevels(hs)
  {
    forall l :: 1 <= l <= 4 ==> Sorted(hs[l])
  }

  /** A candidate of an earlier header is a candidate of every later one. */
  lemma CandidatesGrow(hs: Levels, level: int, a: nat, b: nat, x: nat)
    requires HasLevels(hs) && 1 <= level <= 4 && a <= b
    requires x in Candidates(hs, level, a)
    ensures x in Candidates(hs, level, b)
  {
  }

  /** Over ascending headers, what has been gathered is exactly the candidates of the last one. */
  lemma {:induction false} GatheredIsLast(hs: Levels, level: int, children: seq<nat>, x: nat)
    requires HasLevels(hs) && 1 <= level <= 4 && Sorted(children) && |children| > 0
    ensures x in Gathered(hs, level, children) <==> x in Candidates(hs, level, children[|children| - 1])
    decreases |children|
  {
    var n := |children|;
    var front := children[..n - 1];
    assert Gathered(hs, level, children) == Gathered(hs, level, front) + Candidates(hs, level, children[n - 1]);
    if n > 1 {
      assert Sorted(front);
      GatheredIsLast(hs, level, front, x);
      if x in Candidates(hs, level, front[n - 2]) {
        CandidatesGrow(hs, level, front[n - 2], children[n - 1], x);
      }
    }
  }

  /**
   * Over the ascending headers of a level, the accumulated `parents` list
   * does no harm: the edges are positional, each joins a header to its
   * nearest shallower predecessor, and the level fails exactly when its
   * first header has no candidate.
   */
  lemma LevelEdgesNearest(hs: Levels, level: int, children: seq<nat>)
    requires HasLevels(hs) && 1 <= level <= 4 && Sorted(children)
    ensures LevelEdges(hs, level, children).Ok?
            <==> |children| == 0 || |Candidates(hs, level, children[0])| > 0
    ensures LevelEdges(hs, level, children).Ok? ==> NearestEdges(hs, level, LevelEdges(hs, level, children).value, children)
  {
    LevelEdgesOkWhen(hs, level, children);
    if LevelEdges(hs, level, children).Ok? {
      LevelEdgesEach(hs, level, children);
    }
  }

  lemma {:induction false} LevelEdgesOkWhen(hs: Levels, level: int, children: seq<nat>)
    requires HasLevels(hs) && 1 <= level <= 4 && Sorted(children)
    ensures LevelEdges(hs, level, children).Ok?
            <==> |children| == 0 || |Candidates(hs, level, children[0])| > 0
    decreases |children|
  {
    var n := |children|;
    if n > 0 {
      var front := children[..n - 1];
      assert Sorted(front);
      LevelEdgesOkWhen(hs, level, front);
      GatheredNonEmpty(hs, level, children);
      if n > 1 {
        assert front[0] == children[0];
      } else {
        assert LevelEdges(hs, level, front) == Ok([]);
      }
    }
  }

  lemma {:induction false} LevelEdgesEach(hs: Levels, level: int, children: seq<nat>)
    requires HasLevels(hs) && 1 <= level <= 4 && Sorted(children)
    requires LevelEdges(hs, level, children).Ok?
    ensures NearestEdges(hs, level, LevelEdges(hs, level, children).value, children)
    decreases |children|
  {
    var n := |children|;
    if n > 0 {
      var front := children[..n - 1];
      var last := children[n - 1];
      assert Sorted(front);
      var tf := LevelEdges(hs, level, front).value;
      LevelEdgesEach(hs, level, front);
      var m := Max(Gathered(hs, level, children));
      assert LevelEdges(hs, level, children).value == tf + [Edge(m, last)];
      LastEdgeNearest(hs, level, children);
      NearestEdgesSnoc(hs, level, tf, front, Edge(m, last));
      assert front + [last] == children;
    }
  }

  /** Edge `k` joins header `k` to its nearest shallower predecessor. */
  predicate NearestEdges(hs: Levels, level: int, t: seq<Edge>, children: seq<nat>)
    requires HasLevels(hs) && 1 <= level <= 4
  {
    |t| == |children| && forall k :: 0 <= k < |t| ==> t[k].child == children[k] && IsNearest(hs, level, t[k].parent, children[k])
  }

  lemma NearestEdgesSnoc(hs: Levels, level: int, t: seq<Edge>, children: seq<nat>, e: Edge)
    requires HasLevels(hs) && 1 <= level <= 4
    requires NearestEdges(hs, level, t, children) && IsNearest(hs, level, e.parent, e.child)
    ensures NearestEdges(hs, level, t + [e], children + [e.child])
  {
  }

  /** A candidate of the first header is gathered at the last; with one header, nothing else is. */
  lemma GatheredNonEmpty(hs: Levels, level: int, children: seq<nat>)
    requires HasLevels(hs) && 1 <= level <= 4 && Sorted(children) && |children| > 0
    ensures |Candidates(hs, level, children[0])| > 0 ==> |Gathered(hs, level, children)| > 0
    ensures |children| == 1 ==> Gathered(hs, level, children) == Candidates(hs, level, children[0])
  {
    var last := children[|children| - 1];
    if |Candidates(hs, level, children[0])| > 0 {
      var x := Candidates(hs, level, children[0])[0];
      CandidatesGrow(hs, level, children[0], last, x);
      GatheredIsLast(hs, level, children, x);
    }
    if |children| == 1 {
      assert Gathered(hs, level, children) == [] + Candidates(hs, level, children[0]);
    }
  }

  /** The largest gathered candidate is the nearest shallower header before the last one. */
  lemma LastEdgeNearest(hs: Levels, level: int, children: seq<nat>)
    requires HasLevels(hs) && 1 <= level <= 4 && Sorted(children) && |children| > 0
    requires |Gathered(hs, level, children)| > 0
    ensures IsNearest(hs, level, Max(Gathered(hs, level, children)), children[|children| - 1])
  {
    var last := children[|children| - 1];
    var parents := Gathered(hs, level, children);
    var m := Max(parents);
    GatheredIsLast(hs, level, children, m);
    assert m in Candidates(hs, level, last);
    forall l, x | 1 <= l < level && x in hs[l] && x < last ensures x <= m {
      assert x in Candidates(hs, level, last);
      GatheredIsLast(hs, level, children, x);
    }
  }

  /** Once a prefix of the headers fails, the whole level fails the same way. */
  lemma {:induction false} FailureSticks(hs: Levels, level: int, children: seq<nat>, j: nat)
    requires HasLevels(hs) && 1 <= level <= 4 && j <= |children|
    requires LevelEdges(hs, level, children[..j]).Err?
    ensures LevelEdges(hs, level, children) == LevelEdges(hs, level, children[..j])
    decreases |children|
  {
    if j < |children| {
      var front := children[..|children| - 1];
      assert front[..j] == children[..j];
      FailureSticks(hs, level, front, j);
    } else {
      assert children[..j] == children;
    }
  }

  /** The levels of a header index are ascending. */
  lemma HeaderIndexSorted(doc: Doc)
    ensures HasLevels(HeaderIndex(doc)) && SortedLevels(HeaderIndex(doc))
  {
    forall l | 1 <= l <= 4 ensures Sorted(HeaderIndex(doc)[l]) {
      if |doc| > 0 {
        HeaderIndexExact(doc, l, 0);
      } else {
        assert Structure(doc, Typed(Markdown)) == [];
      }
    }
  }

  lemma LevelEdgesOk(hs: Levels, level: int)
    requires HasLevels(hs) && SortedLevels(hs) && 1 <= level <= 4
    ensures LevelEdges(hs, level, hs[level]).Ok? <==> LevelOk(hs, level)
  {
    LevelEdgesNearest(hs, level, hs[level]);
  }

  /** The tree fails exactly when the first header of some level from `lo` to 4 has no candidate. */
  lemma {:induction false} EdgesDownOk(hs: Levels, lo: int)
    requires HasLevels(hs) && SortedLevels(hs) && 2 <= lo <= 5
    ensures EdgesDown(hs, lo).Ok?
            <==> forall level :: lo <= level <= 4 ==> LevelOk(hs, level)
    decreases 5 - lo
  {
    if lo < 5 {
      EdgesDownOk(hs, lo + 1);
      LevelEdgesOk(hs, lo);
      assert EdgesDown(hs, lo).Ok? <==> EdgesDown(hs, lo + 1).Ok? && LevelEdges(hs, lo, hs[lo]).Ok?;
      if LevelOk(hs, lo) && forall level :: lo + 1 <= level <= 4 ==> LevelOk(hs, level) {
        forall level | lo <= level <= 4 ensures LevelOk(hs, level) {
          if level > lo { assert lo + 1 <= level <= 4; }
        }
      }
    }
  }

  /** Every edge joins a header of a level from `lo` to 4 to its nearest shallower predecessor. */
  lemma {:induction false} EdgesDownSound(hs: Levels, lo: int)
    requires HasLevels(hs) && SortedLevels(hs) && 2 <= lo <= 5 && EdgesDown(hs, lo).Ok?
    ensures forall e :: e in EdgesDown(hs, lo).value ==>
              exists level :: lo <= level <= 4 && e.child in hs[level] && IsNearest(hs, level, e.parent, e.child)
    decreases 5 - lo
  {
    if lo < 5 {
      EdgesDownSound(hs, lo + 1);
      LevelEdgesNearest(hs, lo, hs[lo]);
      var deeper := EdgesDown(hs, lo + 1).value;
      var here := LevelEdges(hs, lo, hs[lo]).value;
      assert EdgesDown(hs, lo).value == deeper + here;
      forall e | e in here ensures e.child in hs[lo] && IsNearest(hs, lo, e.parent, e.child) {
        var k :| 0 <= k < |here| && here[k] == e;
        assert hs[lo][k] in hs[lo];
      }
    }
  }

  /** Every header of a level from `lo` to 4 has its edge from its nearest shallower predecessor. */
  lemma {:induction false} EdgesDownComplete(hs: Levels, lo: int)
    requires HasLevels(hs) && SortedLevels(hs) && 2 <= lo <= 5 && EdgesDown(hs, lo).Ok?
    ensures forall level, c :: lo <= level <= 4 && c in hs[level] ==>
              exists p :: Edge(p, c) in EdgesDown(hs, lo).value && IsNearest(hs, level, p, c)
    decreases 5 - lo
  {
    if lo < 5 {
      EdgesDownComplete(hs, lo + 1);
      var deeper := EdgesDown(hs, lo + 1).value;
      var here := LevelEdges(hs, lo, hs[lo]).value;
      var t := EdgesDown(hs, lo).value;
      assert t == deeper + here;
      forall level, c | lo <= level <= 4 && c in hs[level] ensures exists p :: Edge(p, c) in t && IsNearest(hs, level, p, c) {
        if level == lo {
          var p := LevelComplete(hs, lo, c);
          assert Edge(p, c) in t;
        } else {
          var p :| Edge(p, c) in deeper && IsNearest(hs, level, p, c);
          assert Edge(p, c) in t;
        }
      }
    }
  }

  /** A header of `level` gets its edge in that level's list. */
  lemma LevelComplete(hs: Levels, level: int, c: nat) returns (p: nat)
    requires HasLevels(hs) && SortedLevels(hs) && 1 <= level <= 4
    requires LevelEdges(hs, level, hs[level]).Ok? && c in hs[level]
    ensures Edge(p, c) in LevelEdges(hs, level, hs[level]).value && IsNearest(hs, level, p, c)
  {
    LevelEdgesNearest(hs, level, hs[level]);
    var here := LevelEdges(hs, level, hs[level]).value;
    var k :| 0 <= k < |hs[level]| && hs[level][k] == c;
    p := here[k].parent;
    assert here[k] == Edge(p, c);
  }

  /** `get_tree` on a notebook: the nearest-shallower-parent edges of all its level 2 to 4 headers. */
  lemma TreeNearest(doc: Doc)
    ensures HasLevels(HeaderIndex(doc))
    ensures var hs := HeaderIndex(doc);
            TreeOf(hs).Ok? <==> forall level :: 2 <= level <= 4 ==> LevelOk(hs, level)
    ensures var hs := HeaderIndex(doc);
            TreeOf(hs).Ok? ==>
              (forall e :: e in TreeOf(hs).value ==> exists level :: 2 <= level <= 4 && e.child in hs[level] && IsNearest(hs, level, e.parent, e.child))
              && forall level, c :: 2 <= level <= 4 && c in hs[level] ==> exists p :: Edge(p, c) in TreeOf(hs).value && IsNearest(hs, level, p, c)
  {
    HeaderIndexSorted(doc);
    EdgesDownOk(HeaderIndex(doc), 2);
    if TreeOf(HeaderIndex(doc)).Ok? {
      EdgesDownSound(HeaderIndex(doc), 2);
      EdgesDownComplete(HeaderIndex(doc), 2);
    }
  }

  // ---------------------------------------------------------------- the loops

  /** `NoteBook.get_tree`. */
  method GetTree(nb: NoteBook) returns (r: Result<seq<Edge>>)
    requires |nb.kinds| == |nb.cells|
    ensures HasLevels(HeaderIndex(nb.Doc())) && r == TreeOf(HeaderIndex(nb.Doc()))
  {
    var hs := GetHeaderCells(nb.Doc());
    var tree: seq<Edge> := [];
    var level := 4;
    while level > 1
      invariant 1 <= level <= 4
      invariant EdgesDown(hs, level + 1) == Ok(tree)
    {
      var here := EdgesOfLevel(hs, level);
      if here.Err? {
        EdgesDownSticks(hs, 2, level);
        return Err(here.error);
      }
      tree := tree + here.value;
      level := level - 1;
    }
    return Ok(tree);
  }

  /** A failing level makes every lower start fail with its error. */
  lemma {:induction false} EdgesDownSticks(hs: Levels, lo: int, level: int)
    requires HasLevels(hs) && 2 <= lo <= level <= 4
    requires EdgesDown(hs, level + 1).Ok? && LevelEdges(hs, level, hs[level]).Err?
    ensures EdgesDown(hs, lo) == Err(LevelEdges(hs, level, hs[level]).error)
    decreases level - lo
  {
    if lo < level {
      EdgesDownSticks(hs, lo + 1, level);
    }
  }

  /** The `for child in children` loop of one level, `parents` carried across the children. */
  method EdgesOfLevel(hs: Levels, level: int) returns (r: Result<seq<Edge>>)
    requires HasLevels(hs) && 2 <= level <= 4
    ensures r == LevelEdges(hs, level, hs[level])
  {
    var children := hs[level];
    var parents: seq<nat> := [];
    var edges: seq<Edge> := [];
    var j := 0;
    while j < |children|
      invariant 0 <= j <= |children|
      invariant parents == Gathered(hs, level, children[..j])
      invariant LevelEdges(hs, level, children[..j]) == Ok(edges)
    {
      var child := children[j];
      var found := GatherCandidates(hs, level, child);
      assert children[..j + 1][..j] == children[..j];
      parents := parents + found;
      if |parents| == 0 {
        FailureSticks(hs, level, children, j + 1);
        return Err(ValueError);
      }
      edges := edges + [Edge(Max(parents), child)];
      j := j + 1;
    }
    assert children[..j] == children;
    return Ok(edges);
  }

  /** The `while parent_level > 0` loop for one child. */
  method GatherCandidates(hs: Levels, level: int, child: nat) returns (found: seq<nat>)
    requires HasLevels(hs) && 2 <= level <= 4
    ensures found == Candidates(hs, level, child)
  {
    found := [];
    var pl := level - 1;
    while pl > 0
      invariant 0 <= pl <= level - 1
      invariant found == Collected(hs, level - 1, pl, child)
    {
      found := found + Below(hs[pl], child);
      pl := pl - 1;
    }
  }
}
