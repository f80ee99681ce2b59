/**
 * `section_start_end`: for every header cell, the span of cells it owns.
 * The tentative end is one before the next header of the same level, or
 * `n_cells` when there is none; it is then tightened level by level, from
 * the level just above down to level 1, by the nearest shallower header
 * strictly between the start and the current end.
 */
module Spans {
  import opened Headers

  /** `[start, end, level]` as `section_start_end` records it. */
  datatype Span = Span(start: nat, end: nat, level: nat)

  /** `[e for e in hs if e > lo]` */
  function Larger(hs: seq<nat>, lo: nat): (r: seq<nat>)
  {
    if |hs| == 0 then [] else (if lo < hs[0] then [hs[0]] else []) + Larger(hs[1..], lo)
  }

  /** `[e for e in hs if e > lo and e < hi]` */
  function Between(hs: seq<nat>, lo: nat, hi: int): (r: seq<nat>)
  {
    if |hs| == 0 then [] else (if lo < hs[0] < hi then [hs[0]] else []) + Between(hs[1..], lo, hi)
  }

  lemma {:induction false} LargerMembers(hs: seq<nat>, lo: nat)
    ensures forall e :: e in Larger(hs, lo) <==> e in hs && lo < e
    decreases |hs|
  {
    if |hs| > 0 {
      LargerMembers(hs[1..], lo);
      assert forall e :: e in hs <==> e == hs[0] || e in hs[1..];
    }
  }

  lemma {:induction false} BetweenMembers(hs: seq<nat>, lo: nat, hi: int)
    ensures forall e :: e in Between(hs, lo, hi) <==> e in hs && lo < e < hi
    decreases |hs|
  {
    if |hs| > 0 {
      BetweenMembers(hs[1..], lo, hi);
      assert forall e :: e in hs <==> e == hs[0] || e in hs[1..];
    }
  }

  /** Python's `min` of a non-empty list. */
  function Min(s: seq<nat>): (m: nat)
    requires |s| > 0
    ensures m in s && forall e :: e in s ==> m <= e
  {
    if |s| == 1 then s[0]
    else
      var rest := Min(s[1..]);
      assert forall e :: e in s ==> e == s[0] || e in s[1..];
      if s[0] <= rest then s[0] else rest
  }

  /** The end before tightening: one before the next same-level header, else `n` (one past the last cell). */
  function TentativeEnd(same: seq<nat>, element: nat, n: nat): nat {
    var larger := Larger(same, element);
    LargerMembers(same, element);
    if |larger| > 0 then Min(larger) - 1 else n
  }

  /** The `p` loop: levels `p`, `p - 1`, ..., 1 each clip `end` before their nearest header strictly inside. */
  function Tighten(hs: Levels, element: nat, end: nat, p: int): nat
    requires HasLevels(hs) && p <= 4
    decreases p
  {
    if p <= 0 then end else Tighten(hs, element, Clip(hs[p], element, end), p - 1)
  }

  /** One pass of the `p` loop: the end moves before the nearest header of the level strictly inside, if any. */
  function Clip(level: seq<nat>, element: nat, end: nat): nat {
    var larger := Between(level, element, end);
    BetweenMembers(level, element, end);
    if |larger| > 0 then Min(larger) - 1 else end
  }

  /** The span recorded for the header of level `k` at cell `element`. */
  function SpanOf(hs: Levels, n: nat, k: int, element: nat): (s: Span)
    requires HasLevels(hs) && 1 <= k <= 4
  {
    Span(element, Tighten(hs, element, TentativeEnd(hs[k], element, n), k - 1), k)
  }

  /** The spans of level `k`, one per entry of its list (a repeated cell gives repeated spans). */
  function LevelSpans(hs: Levels, n: nat, k: int): (r: seq<Span>)
    requires HasLevels(hs) && 1 <= k <= 4
    ensures |r| == |hs[k]|
  {
    seq(|hs[k]|, i requires 0 <= i < |hs[k]| => SpanOf(hs, n, k, hs[k][i]))
  }

  /** `mapping` once the levels above `k` have been popped: levels 4, 3, ..., k + 1 in that order. */
  function Done(hs: Levels, n: nat, k: nat): seq<Span>
    requires HasLevels(hs) && k <= 4
    decreases 4 - k
  {
    if k == 4 then [] else Done(hs, n, k + 1) + LevelSpans(hs, n, k + 1)
  }

  /** Lexicographic order of `[start, end, level]`, the order of `mapping.sort()`. */
  predicate LexLe(a: Span, b: Span) {
    a.start < b.start || (a.start == b.start && (a.end < b.end || (a.end == b.end && a.level <= b.level)))
  }

  /**
   * `dict(...)` over the sorted `mapping`: a later entry with the same start
   * replaces an earlier one, so each start keeps its lexicographically
   * greatest entry. Folding in any order and keeping the greater entry gives
   * the same dict.
   */
  function ToDict(ms: seq<Span>): (d: map<nat, Span>)
    decreases |ms|
  {
    if |ms| == 0 then map[]
    else
      var d := ToDict(ms[..|ms| - 1]);
      var s := ms[|ms| - 1];
      if s.start !in d || LexLe(d[s.start], s) then d[s.start := s] else d
  }

  /** The dict `section_start_end` returns: start cell to `[start, end, level]`. */
  function StartEnd(hs: Levels, n: nat): map<nat, Span>
    requires HasLevels(hs)
  {
    ToDict(Done(hs, n, 0))
  }

  /** `section_start_end(notebook)`. */
  method SectionStartEnd(hs: Levels, n: nat) returns (d: map<nat, Span>)
    requires HasLevels(hs)
    ensures d == StartEnd(hs, n)
  {
    var keys: seq<nat> := [1, 2, 3, 4];
    var mapping: seq<Span> := [];
    while |keys| > 0
      invariant |keys| <= 4
      invariant forall i :: 0 <= i < |keys| ==> keys[i] == i + 1
      invariant mapping == Done(hs, n, |keys|)
    {
      var k := keys[|keys| - 1];
      keys := keys[..|keys| - 1];
      mapping := AppendLevel(hs, n, k, mapping);
    }
    d := SortedDict(mapping);
  }

  /** The `for element in hs[k]` loop: one entry per header of level `k`. */
  method AppendLevel(hs: Levels, n: nat, k: int, mapping0: seq<Span>) returns (mapping: seq<Span>)
    requires HasLevels(hs) && 1 <= k <= 4
    ensures mapping == mapping0 + LevelSpans(hs, n, k)
  {
    ghost var spans := LevelSpans(hs, n, k);
    mapping := mapping0;
    var i := 0;
    while i < |hs[k]|
      invariant 0 <= i <= |hs[k]|
      invariant mapping == mapping0 + spans[..i]
    {
      var element := hs[k][i];
      var end := SpanEnd(hs, n, k, element);
      assert Span(element, end, k) == spans[i];
      PrefixSnoc(mapping0, spans, i);
      mapping := mapping + [Span(element, end, k)];
      i := i + 1;
    }
    assert spans[..i] == spans;
  }

  lemma PrefixSnoc<T>(a: seq<T>, s: seq<T>, i: nat)
    requires i < |s|
    ensures (a + s[..i]) + [s[i]] == a + s[..i + 1]
  {
    assert s[..i + 1] == s[..i] + [s[i]];
  }

  /** The end of one span: the tentative end, then the `p` loop over the shallower levels. */
  method SpanEnd(hs: Levels, n: nat, k: int, element: nat) returns (end: nat)
    requires HasLevels(hs) && 1 <= k <= 4
    ensures end == SpanOf(hs, n, k, element).end
  {
    end := TentativeEnd(hs[k], element, n);
    ghost var target := Tighten(hs, element, end, k - 1);
    assert SpanOf(hs, n, k, element).end == target;
    var p := k - 1;
    while p > 0
      invariant 0 <= p < k
      invariant Tighten(hs, element, end, p) == target
    {
      TightenStep(hs, element, end, p);
      end := Clip(hs[p], element, end);
      p := p - 1;
    }
    assert Tighten(hs, element, end, p) == end;
  }

  lemma TightenStep(hs: Levels, element: nat, end: nat, p: int)
    requires HasLevels(hs) && 0 < p <= 4
    ensures Tighten(hs, element, end, p) == Tighten(hs, element, Clip(hs[p], element, end), p - 1)
  {
  }

  /** `mapping.sort()` followed by `dict(...)`: for each start, its greatest entry. */
  method SortedDict(mapping: seq<Span>) returns (d: map<nat, Span>)
    ensures d == ToDict(mapping)
  {
    d := map[];
    var j := 0;
    while j < |mapping|
      invariant 0 <= j <= |mapping|
      invariant d == ToDict(mapping[..j])
    {
      var s := mapping[j];
      assert mapping[..j + 1][..j] == mapping[..j];
      if s.start !in d || LexLe(d[s.start], s) {
        d := d[s.start := s];
      }
      j := j + 1;
    }
    assert mapping[..j] == mapping;
  }

  /** Every header index lies before `n`. */
  predicate Bounded(hs: Levels, n: nat)
    requires HasLevels(hs)
  {
    forall l, e :: 1 <= l <= 4 && e in hs[l] ==> e < n
  }

  /** A clip keeps the end at or after the start, never moves it later, and leaves no header of the level strictly inside. */
  lemma ClipFacts(level: seq<nat>, element: nat, end: nat)
    requires element <= end
    ensures element <= Clip(level, element, end) <= end
    ensures forall e :: e in level ==> !(element < e < Clip(level, element, end))
  {
    var larger := Between(level, element, end);
    BetweenMembers(level, element, end);
    if |larger| > 0 {
      var m := Min(larger);
      assert m in larger;
    }
  }

  lemma {:induction false} TightenBounds(hs: Levels, element: nat, end: nat, p: int)
    requires HasLevels(hs) && p <= 4 && element <= end
    ensures element <= Tighten(hs, element, end, p) <= end
    decreases p
  {
    if p > 0 {
      ClipFacts(hs[p], element, end);
      TightenBounds(hs, element, Clip(hs[p], element, end), p - 1);
    }
  }

  /** After tightening, no header of levels 1..p lies strictly between the start and the end. */
  lemma {:induction false} TightenClears(hs: Levels, element: nat, end: nat, p: int, q: int, e: nat)
    requires HasLevels(hs) && p <= 4 && element <= end
    requires 1 <= q <= p && e in hs[q]
    ensures !(element < e < Tighten(hs, element, end, p))
    decreases p
  {
    var end' := Clip(hs[p], element, end);
    assert Tighten(hs, element, end, p) == Tighten(hs, element, end', p - 1);
    if q < p {
      ClipFacts(hs[p], element, end);
      TightenClears(hs, element, end', p - 1, q, e);
    } else {
      ClipFacts(hs[p], element, end);
      TightenBounds(hs, element, end', p - 1);
    }
  }

  /**
   * Every span starts at its own header cell and ends no earlier than it
   * starts and no later than `n` (`n` itself, one past the last cell, when
   * nothing closes it). No header of the same level lies in (start, end],
   * and no header of a shallower level lies strictly inside (start, end).
   */
  lemma SpanShape(hs: Levels, n: nat, k: int, element: nat)
    requires HasLevels(hs) && Bounded(hs, n) && 1 <= k <= 4 && element < n
    ensures SpanOf(hs, n, k, element).start == element
    ensures element <= SpanOf(hs, n, k, element).end <= n
    ensures forall e :: e in hs[k] ==> !(element < e <= SpanOf(hs, n, k, element).end)
    ensures forall q, e :: 1 <= q < k && e in hs[q] ==> !(element < e < SpanOf(hs, n, k, element).end)
  {
    var t := TentativeEnd(hs[k], element, n);
    var larger := Larger(hs[k], element);
    LargerMembers(hs[k], element);
    if |larger| > 0 {
      assert Min(larger) in hs[k];
    }
    assert element <= t <= n;
    TightenBounds(hs, element, t, k - 1);
    forall q, e | 1 <= q < k && e in hs[q] ensures !(element < e < SpanOf(hs, n, k, element).end) {
      TightenClears(hs, element, t, k - 1, q, e);
    }
    forall e | e in hs[k] && element < e ensures e > t {
      assert e in larger;
    }
  }

  /**
   * A shallower header exactly at the tentative end is not clipped: when
   * the cell just before the next same-level header is itself a header of
   * a shallower level, and no shallower header lies strictly inside, the
   * span ends on that cell and so owns it.
   */
  lemma ShallowerHeaderAtEndKept(hs: Levels, n: nat, k: int, q: int, element: nat, e: nat)
    requires HasLevels(hs) && 1 <= q < k <= 4 && e in hs[q]
    requires element < e == TentativeEnd(hs[k], element, n)
    requires forall p, x :: 1 <= p < k && x in hs[p] ==> !(element < x < e)
    ensures SpanOf(hs, n, k, element).end == e
  {
    TightenUnchanged(hs, element, e, k - 1);
  }

  /** The `p` loop leaves the end alone when no header of the levels it visits lies strictly inside. */
  lemma {:induction false} TightenUnchanged(hs: Levels, element: nat, end: nat, p: int)
    requires HasLevels(hs) && p <= 4
    requires forall p', x :: 1 <= p' <= p && x in hs[p'] ==> !(element < x < end)
    ensures Tighten(hs, element, end, p) == end
    decreases p
  {
    if p > 0 {
      BetweenMembers(hs[p], element, end);
      TightenUnchanged(hs, element, end, p - 1);
    }
  }

  /**
   * The same on a concrete notebook: a level-2 header at cell 0 whose next
   * level-2 header is at cell 5 keeps the level-1 header at cell 4 inside
   * its span.
   */
  lemma ShallowerHeaderAtEndExample()
    ensures var hs := map[1 := [4], 2 := [0, 5], 3 := [], 4 := []];
            SpanOf(hs, 6, 2, 0) == Span(0, 4, 2) && 4 in hs[1]
  {
    var hs: Levels := map[1 := [4], 2 := [0, 5], 3 := [], 4 := []];
    assert Larger(hs[2], 0) == [5];
    LargerMembers(hs[2], 0);
    ShallowerHeaderAtEndKept(hs, 6, 2, 1, 0, 4);
  }

  /** Each start keeps one entry of the list: one with that start, and no entry with that start is greater. */
  lemma {:induction false} ToDictGreatest(ms: seq<Span>)
    ensures forall s :: s in ToDict(ms) ==> ToDict(ms)[s].start == s && ToDict(ms)[s] in ms
    ensures forall x :: x in ms ==> x.start in ToDict(ms) && LexLe(x, ToDict(ms)[x.start])
    decreases |ms|
  {
    if |ms| > 0 {
      var front := ms[..|ms| - 1];
      ToDictGreatest(front);
      assert forall x :: x in ms <==> x in front || x == ms[|ms| - 1];
    }
  }

  /** Every entry of `mapping` is the span of a header entry of a level above `k`. */
  lemma {:induction false} DoneSound(hs: Levels, n: nat, k: nat)
    requires HasLevels(hs) && k <= 4
    ensures forall x :: x in Done(hs, n, k) ==>
              k < x.level <= 4 && x.start in hs[x.level] && x == SpanOf(hs, n, x.level, x.start)
    decreases 4 - k
  {
    if k < 4 {
      DoneSound(hs, n, k + 1);
      var lev := k + 1;
      var row := hs[lev];
      var spans := LevelSpans(hs, n, lev);
      assert Done(hs, n, k) == Done(hs, n, lev) + spans;
      forall x | x in spans ensures x.level == lev && x.start in row && x == SpanOf(hs, n, lev, x.start) {
        var i :| 0 <= i < |spans| && spans[i] == x;
        assert x == SpanOf(hs, n, lev, row[i]);
      }
    }
  }

  /** The span of every header entry of a level above `k` is in `mapping`. */
  lemma {:induction false} DoneComplete(hs: Levels, n: nat, k: nat, l: int, e: nat)
    requires HasLevels(hs) && k < l <= 4 && e in hs[l]
    ensures SpanOf(hs, n, l, e) in Done(hs, n, k)
    decreases 4 - k
  {
    var lev := k + 1;
    assert Done(hs, n, k) == Done(hs, n, lev) + LevelSpans(hs, n, lev);
    if l == lev {
      var row := hs[lev];
      var i :| 0 <= i < |row| && row[i] == e;
      assert LevelSpans(hs, n, lev)[i] == SpanOf(hs, n, l, e);
    } else {
      DoneComplete(hs, n, lev, l, e);
    }
  }

  /**
   * The dict `section_start_end` returns has no key but header cells: the
   * entry at a key starts there and is the span of a header at that cell.
   */
  lemma StartEndSound(hs: Levels, n: nat)
    requires HasLevels(hs)
    ensures forall s :: s in StartEnd(hs, n) ==>
              var v := StartEnd(hs, n)[s];
              v.start == s && 1 <= v.level <= 4 && s in hs[v.level] && v == SpanOf(hs, n, v.level, s)
  {
    ToDictGreatest(Done(hs, n, 0));
    DoneSound(hs, n, 0);
  }

  /**
   * Every header cell of every level is a key of the dict, and when several
   * headers share the cell the entry kept is the one that sorts last among
   * their spans (largest end, then deepest level).
   */
  lemma StartEndComplete(hs: Levels, n: nat, l: int, e: nat)
    requires HasLevels(hs) && 1 <= l <= 4 && e in hs[l]
    ensures e in StartEnd(hs, n) && LexLe(SpanOf(hs, n, l, e), StartEnd(hs, n)[e])
  {
    ToDictGreatest(Done(hs, n, 0));
    DoneComplete(hs, n, 0, l, e);
  }
}
