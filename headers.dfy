/**
 * `get_header_cells`: the per-level index of header cells. Each markdown
 * cell has its fenced code spans removed, then every `#`-run of exactly
 * N characters followed by a space records the cell once at level N.
 */
module Headers {
  import opened Outcomes
  import opened Text
  import opened Cells

  const Fence: string := "```"

  /** `p` occurs in `s` at position `j`. */
  predicate OccursAt(s: string, p: string, j: nat) {
    j + |p| <= |s| && s[j..j + |p|] == p
  }

  /** The first position at or after `from` where `p` occurs in `s`. */
  function FindFrom(s: string, p: string, from: nat): (r: Option<nat>)
    ensures r.Some? ==> from <= r.value && OccursAt(s, p, r.value)
    ensures r.Some? ==> forall j: nat :: from <= j < r.value ==> !OccursAt(s, p, j)
    ensures r.None? ==> forall j: nat :: from <= j ==> !OccursAt(s, p, j)
    decreases |s| - from
  {
    if from + |p| > |s| then None
    else if OccursAt(s, p, from) then Some(from)
    else FindFrom(s, p, from + 1)
  }

  /**
   * Where the fenced span opening at position 0 of `s` ends, if one does:
   * the regular expression ```` ```.+?``` ```` with `re.S`, so at least one
   * character (newlines included) lies between the fences and the nearest
   * closing fence wins.
   */
  function FenceEnd(s: string): (r: Option<nat>)
    ensures r.Some? ==> 7 <= r.value <= |s| && IsPrefix(Fence, s) && OccursAt(s, Fence, r.value - 3)
  {
    if IsPrefix(Fence, s) then
      match FindFrom(s, Fence, 4)
      case Some(j) => Some(j + 3)
      case None => None
    else None
  }

  /** `re.sub(r'```.+?```', '', source, flags=re.S)`: one left-to-right pass deleting fenced spans. */
  function StripFences(s: string): (r: string)
    ensures |r| <= |s|
    decreases |s|
  {
    if |s| == 0 then ""
    else
      match FenceEnd(s)
      case Some(e) => StripFences(s[e..])
      case None => [s[0]] + StripFences(s[1..])
  }

  /**
   * A header marker of `level` starts at `p`: exactly `level` `#` characters,
   * not preceded by `#` (the look-behind `(?<!#)`), then a space. It may sit
   * anywhere in the text, not only at the start of a line.
   */
  predicate MarkerAt(s: string, p: nat, level: nat) {
    && p + level < |s|
    && (p == 0 || s[p - 1] != '#')
    && (forall q :: p <= q < p + level ==> s[q] == '#')
    && s[p + level] == ' '
  }

  function CountFrom(s: string, level: nat, p: nat): nat
    decreases |s| - p
  {
    if p >= |s| then 0 else (if MarkerAt(s, p, level) then 1 else 0) + CountFrom(s, level, p + 1)
  }

  /** `len(rh.findall(source))` for the level's pattern. */
  function MarkerCount(s: string, level: nat): nat {
    CountFrom(s, level, 0)
  }

  function Repeat(x: nat, n: nat): (r: seq<nat>)
    ensures |r| == n && forall i :: 0 <= i < n ==> r[i] == x
  {
    seq(n, _ => x)
  }

  /** What the scan of the cells `md` (in that order) appends to the list of `level`. */
  function LevelCells(doc: Doc, md: seq<nat>, level: nat): (hs: seq<nat>)
    requires forall i :: 0 <= i < |md| ==> md[i] < |doc|
    decreases |md|
  {
    if |md| == 0 then []
    else
      var idx := md[|md| - 1];
      LevelCells(doc, md[..|md| - 1], level) + Repeat(idx, MarkerCount(StripFences(Source(doc, idx)), level))
  }

  type Levels = map<int, seq<nat>>

  predicate HasLevels(hs: Levels) {
    forall l :: 1 <= l <= 4 ==> l in hs
  }

  function Scan(doc: Doc, md: seq<nat>): (hs: Levels)
    requires forall i :: 0 <= i < |md| ==> md[i] < |doc|
    ensures hs.Keys == {1, 2, 3, 4}
  {
    map l | l in {1, 2, 3, 4} :: LevelCells(doc, md, l)
  }

  /** The header index of a notebook: the scan of its markdown-kind cells in order. */
  function HeaderIndex(doc: Doc): (hs: Levels)
    ensures hs.Keys == {1, 2, 3, 4}
  {
    Scan(doc, Structure(doc, Typed(Markdown)))
  }

  /** The lists after one more cell `idx`, with fence-stripped text `text`, has been scanned. */
  function Appended(hs: Levels, idx: nat, text: string): (r: Levels)
    requires hs.Keys == {1, 2, 3, 4}
    ensures r.Keys == {1, 2, 3, 4}
  {
    map l | l in {1, 2, 3, 4} :: hs[l] + Repeat(idx, MarkerCount(text, l))
  }

  lemma ScanStep(doc: Doc, md: seq<nat>, n: nat)
    requires forall i :: 0 <= i < |md| ==> md[i] < |doc|
    requires n < |md|
    ensures Scan(doc, md[..n + 1]) == Appended(Scan(doc, md[..n]), md[n], StripFences(Source(doc, md[n])))
  {
    assert md[..n + 1][..n] == md[..n];
  }

  /** `get_header_cells`. */
  method GetHeaderCells(doc: Doc) returns (hs: Levels)
    ensures hs == HeaderIndex(doc)
  {
    hs := map[1 := [], 2 := [], 3 := [], 4 := []];
    var idxs := Structure(doc, Typed(Markdown));
    var n := 0;
    while n < |idxs|
      invariant 0 <= n <= |idxs|
      invariant hs == Scan(doc, idxs[..n])
    {
      var idx := idxs[n];
      var source := StripFences(Source(doc, idx));
      hs := RecordMarkers(hs, idx, source);
      ScanStep(doc, idxs, n);
      n := n + 1;
    }
    assert idxs[..n] == idxs;
  }

  /** The lists while the levels below `j` of one more cell have been recorded. */
  function PartlyAppended(hs: Levels, idx: nat, text: string, j: int): (r: Levels)
    requires hs.Keys == {1, 2, 3, 4}
    ensures r.Keys == {1, 2, 3, 4}
  {
    map l | l in {1, 2, 3, 4} :: if l < j then hs[l] + Repeat(idx, MarkerCount(text, l)) else hs[l]
  }

  /** The body of the scan for one cell: append `idx` once per match, level by level. */
  method RecordMarkers(hs0: Levels, idx: nat, source: string) returns (hs: Levels)
    requires hs0.Keys == {1, 2, 3, 4}
    ensures hs == Appended(hs0, idx, source)
  {
    hs := hs0;
    var j := 1;
    assert hs == PartlyAppended(hs0, idx, source, 1);
    while j <= 4
      invariant 1 <= j <= 5
      invariant hs == PartlyAppended(hs0, idx, source, j)
    {
      var fa := MarkerCount(source, j);
      hs := AppendRepeated(hs, j, idx, fa);
      assert hs == PartlyAppended(hs0, idx, source, j + 1);
      j := j + 1;
    }
    assert hs == Appended(hs0, idx, source);
  }

  /** `for match in fa: hs[j].append(idx)`. */
  method AppendRepeated(hs0: Levels, j: int, idx: nat, count: nat) returns (hs: Levels)
    requires j in hs0
    ensures hs == hs0[j := hs0[j] + Repeat(idx, count)]
  {
    hs := hs0;
    var m := 0;
    assert hs0[j] + Repeat(idx, 0) == hs0[j];
    while m < count
      invariant 0 <= m <= count
      invariant hs == hs0[j := hs0[j] + Repeat(idx, m)]
    {
      assert Repeat(idx, m + 1) == Repeat(idx, m) + [idx];
      assert hs[j] + [idx] == hs0[j] + Repeat(idx, m + 1);
      hs := hs[j := hs[j] + [idx]];
      m := m + 1;
    }
  }

  /**
   * A header marker inside a closed fence does not survive the fence
   * removal: when neither the text before the fence nor the fenced body
   * holds a backtick, the whole fenced span disappears and the scan resumes
   * after it.
   */
  lemma FencedSpanRemoved(pre: string, body: string, post: string)
    requires '`' !in pre && '`' !in body && |body| >= 1
    ensures StripFences(pre + (Fence + body + Fence + post)) == pre + StripFences(post)
  {
    NoBacktickPrefix(pre, Fence + body + Fence + post);
    FenceAtStart(body, post);
  }

  /** Text without a backtick passes through the fence removal unchanged. */
  lemma {:induction false} NoBacktickPrefix(pre: string, tail: string)
    requires '`' !in pre
    ensures StripFences(pre + tail) == pre + StripFences(tail)
    decreases |pre|
  {
    if |pre| > 0 {
      var s := pre + tail;
      assert s[0] == pre[0] && pre[0] in pre;
      assert s[1..] == pre[1..] + tail;
      NoFenceAtStart(s);
      assert forall c :: c in pre[1..] ==> c in pre;
      NoBacktickPrefix(pre[1..], tail);
      var t := StripFences(tail);
      ConsAppend(pre, t);
    } else {
      assert pre + tail == tail;
    }
  }

  lemma ConsAppend(a: string, b: string)
    requires |a| > 0
    ensures [a[0]] + (a[1..] + b) == a + b
  {
  }

  /** A closed fence at the start is deleted with everything up to its nearest closing fence. */
  lemma FenceAtStart(body: string, post: string)
    requires '`' !in body && |body| >= 1
    ensures StripFences(Fence + body + Fence + post) == StripFences(post)
  {
    var s := Fence + body + Fence + post;
    assert IsPrefix(Fence, s);
    var close := 3 + |body|;
    assert OccursAt(s, Fence, close);
    forall j: nat | 4 <= j < close ensures !OccursAt(s, Fence, j) {
      assert s[j] == body[j - 3];
    }
    FindFromIs(s, Fence, 4, close);
    assert FenceEnd(s) == Some(close + 3);
    assert s[close + 3..] == post;
  }

  /** A text starting with anything but a backtick keeps its first character. */
  lemma NoFenceAtStart(s: string)
    requires |s| > 0 && s[0] != '`'
    ensures StripFences(s) == [s[0]] + StripFences(s[1..])
  {
    assert !IsPrefix(Fence, s);
  }

  lemma {:induction false} FindFromIs(s: string, p: string, from: nat, at: nat)
    requires from <= at && OccursAt(s, p, at)
    requires forall j: nat :: from <= j < at ==> !OccursAt(s, p, j)
    ensures FindFrom(s, p, from) == Some(at)
    decreases at - from
  {
    if from < at {
      FindFromIs(s, p, from + 1, at);
    }
  }

  predicate Sorted(s: seq<nat>) {
    forall i, j :: 0 <= i < j < |s| ==> s[i] <= s[j]
  }

  /** Scanning cells in ascending order yields an ascending list whose entries are scanned cells. */
  lemma {:induction false} LevelCellsSorted(doc: Doc, md: seq<nat>, level: nat)
    requires forall i :: 0 <= i < |md| ==> md[i] < |doc|
    requires StrictlyIncreasing(md)
    ensures Sorted(LevelCells(doc, md, level))
    ensures forall x :: x in LevelCells(doc, md, level) ==> x in md
    decreases |md|
  {
    if |md| > 0 {
      var front := md[..|md| - 1];
      var idx := md[|md| - 1];
      LevelCellsSorted(doc, front, level);
      var a := LevelCells(doc, front, level);
      var b := Repeat(idx, MarkerCount(StripFences(Source(doc, idx)), level));
      assert forall x :: x in a ==> x in front && x < idx;
      assert forall x :: x in front ==> x in md;
      var c := LevelCells(doc, md, level);
      assert c == a + b;
      forall i, j | 0 <= i < j < |c| ensures c[i] <= c[j] {
        if j >= |a| {
          assert c[j] == idx;
          if i < |a| { assert c[i] in a; }
        }
      }
    }
  }

  /** A scanned cell is recorded once per marker of the level; an unscanned one never. */
  lemma {:induction false} LevelCellsCount(doc: Doc, md: seq<nat>, level: nat, x: nat)
    requires forall i :: 0 <= i < |md| ==> md[i] < |doc|
    requires StrictlyIncreasing(md)
    ensures multiset(LevelCells(doc, md, level))[x]
            == if x in md then MarkerCount(StripFences(Source(doc, x)), level) else 0
    decreases |md|
  {
    if |md| > 0 {
      var front := md[..|md| - 1];
      var idx := md[|md| - 1];
      LevelCellsCount(doc, front, level, x);
      var b := Repeat(idx, MarkerCount(StripFences(Source(doc, idx)), level));
      assert LevelCells(doc, md, level) == LevelCells(doc, front, level) + b;
      RepeatCount(idx, MarkerCount(StripFences(Source(doc, idx)), level), x);
      assert x in md <==> x in front || x == idx;
      assert x == idx ==> x !in front;
    }
  }

  lemma {:induction false} RepeatCount(y: nat, n: nat, x: nat)
    ensures multiset(Repeat(y, n))[x] == if x == y then n else 0
    decreases n
  {
    if n > 0 {
      assert Repeat(y, n) == Repeat(y, n - 1) + [y];
      RepeatCount(y, n - 1, x);
    } else {
      assert Repeat(y, n) == [];
    }
  }

  /**
   * The header index records a cell at level N exactly once per level-N
   * marker outside removed fences when the cell is markdown-kind, and never
   * when it is of any other kind (include cells are not scanned). Each
   * level's list is in ascending order.
   */
  lemma HeaderIndexExact(doc: Doc, level: int, x: nat)
    requires 1 <= level <= 4 && x < |doc|
    ensures multiset(HeaderIndex(doc)[level])[x]
            == if doc[x].kind == Typed(Markdown) then MarkerCount(StripFences(Source(doc, x)), level) else 0
    ensures Sorted(HeaderIndex(doc)[level])
    ensures forall i :: 0 <= i < |HeaderIndex(doc)[level]| ==> HeaderIndex(doc)[level][i] < |doc|
  {
    var md := Structure(doc, Typed(Markdown));
    StructureExact(doc, Typed(Markdown));
    LevelCellsCount(doc, md, level, x);
    LevelCellsSorted(doc, md, level);
    var h := HeaderIndex(doc)[level];
    forall i | 0 <= i < |h| ensures h[i] < |doc| {
      assert h[i] in h;
    }
  }
}
