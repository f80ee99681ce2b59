/**
 * Include directives and section selectors: `parse_include`,
 * `get_cells_containing` and `get_sections` / `NoteBook.get_section`.
 *
 * A selector such as ` h1.Intro -h2.History` is cut at every `h<digit>.`
 * tag (case-insensitive), one character early so that a leading `-` stays
 * with its clause. The first include clause is the anchor: the first header
 * cell of its level whose text contains its pattern. Further include
 * clauses narrow the result to their own spans; otherwise exclude clauses
 * cut their spans out of the anchor's range.
 */
module Selector {
  import opened Outcomes
  import opened Text
  import opened Cells
  import opened Headers
  import opened Spans

  // ---------------------------------------------------------------- parse_include

  /**
   * `parse_include`: the lines strictly between the first and the last line
   * of the cell; the text after the first `=` of the first of them is the
   * notebook path, the text after the first `=` of the second (up to a
   * further `=`) is the `;`-separated list of selectors.
   */
  function ParseInclude(directive: string): (r: Result<(string, seq<string>)>)
    ensures r.Ok? ==> |r.value.1| >= 1
  {
    var all := Split(directive, '\n');
    var lines := if |all| >= 2 then all[1..|all| - 1] else [];
    if |lines| < 1 then Err(IndexError)
    else
      var pathParts := Split(lines[0], '=');
      if |pathParts| < 2 then Err(IndexError)
      else if |lines| < 2 then Err(IndexError)
      else
        var selParts := Split(lines[1], '=');
        if |selParts| < 2 then Err(IndexError)
        else Ok((pathParts[1], Split(selParts[1], ';')))
  }

  /**
   * A directive written as four lines, `key=path` second and
   * `key=sel1;sel2;...` third, parses back to that path and those selectors.
   */
  lemma ParseIncludeRoundTrip(first: string, k1: string, path: string, k2: string, sels: seq<string>, last: string)
    requires '\n' !in first && '\n' !in last
    requires '\n' !in k1 && '=' !in k1 && '\n' !in path && '=' !in path
    requires '\n' !in k2 && '=' !in k2
    requires |sels| >= 1 && forall i :: 0 <= i < |sels| ==> '\n' !in sels[i] && '=' !in sels[i] && ';' !in sels[i]
    ensures ParseInclude(first + "\n" + (k1 + "=" + path) + "\n" + (k2 + "=" + Join(sels, ';')) + "\n" + last)
            == Ok((path, sels))
  {
    var joined := Join(sels, ';');
    NoCharInJoin(sels, ';', '\n');
    NoCharInJoin(sels, ';', '=');
    KeyValueLine(k1, path);
    KeyValueLine(k2, joined);
    SplitJoin(sels, ';');
    SplitLinesOfFour(first, k1 + "=" + path, k2 + "=" + joined, last);
    ParseIncludeOfLines(first + "\n" + (k1 + "=" + path) + "\n" + (k2 + "=" + joined) + "\n" + last,
                        first, k1 + "=" + path, k2 + "=" + joined, last, k1, path, k2, joined);
  }

  /** A `key=value` line without a further `=` splits at its `=`. */
  lemma KeyValueLine(k: string, v: string)
    requires '\n' !in k && '=' !in k && '\n' !in v && '=' !in v
    ensures Split(k + "=" + v, '=') == [k, v]
    ensures '\n' !in k + "=" + v
  {
    SplitFirst(k, v, '=');
    SplitWhole(v, '=');
  }

  lemma SplitLinesOfFour(a: string, b: string, c: string, d: string)
    requires '\n' !in a && '\n' !in b && '\n' !in c && '\n' !in d
    ensures Split(a + "\n" + b + "\n" + c + "\n" + d, '\n') == [a, b, c, d]
  {
    assert a + "\n" + b + "\n" + c + "\n" + d == a + "\n" + (b + "\n" + (c + "\n" + d));
    SplitFirst(a, b + "\n" + (c + "\n" + d), '\n');
    SplitFirst(b, c + "\n" + d, '\n');
    SplitFirst(c, d, '\n');
    SplitWhole(d, '\n');
  }

  lemma ParseIncludeOfLines(text: string, first: string, line1: string, line2: string, last: string,
                            k1: string, path: string, k2: string, joined: string)
    requires Split(text, '\n') == [first, line1, line2, last]
    requires Split(line1, '=') == [k1, path] && Split(line2, '=') == [k2, joined]
    ensures ParseInclude(text) == Ok((path, Split(joined, ';')))
  {
    var all := Split(text, '\n');
    assert all[1..|all| - 1] == [line1, line2];
  }

  lemma {:induction false} NoCharInJoin(parts: seq<string>, sep: char, c: char)
    requires c != sep && forall i :: 0 <= i < |parts| ==> c !in parts[i]
    ensures c !in Join(parts, sep)
    decreases |parts|
  {
    if |parts| > 1 {
      NoCharInJoin(parts[1..], sep, c);
    }
  }

  // ---------------------------------------------------------------- clauses

  /** The regular expression `h\d\.` with `re.IGNORECASE` matches at `i`. */
  predicate TagAt(s: string, i: nat) {
    i + 3 <= |s| && (s[i] == 'h' || s[i] == 'H') && IsDigit(s[i + 1]) && s[i + 2] == '.'
  }

  /** The start positions `finditer` reports, scanning from `i`. */
  function TagsFrom(s: string, i: nat): (tags: seq<nat>)
    ensures forall k :: 0 <= k < |tags| ==> i <= tags[k] && TagAt(s, tags[k])
    ensures forall k, k' :: 0 <= k < k' < |tags| ==> tags[k] + 3 <= tags[k']
    decreases |s| - i
  {
    if i >= |s| then []
    else if TagAt(s, i) then [i] + TagsFrom(s, i + 3)
    else TagsFrom(s, i + 1)
  }

  /**
   * The scan reports every tag at or after `i` and nothing else. Tags never
   * overlap, since the character after the `h` of a tag is a digit and the
   * one after that a `.`, so skipping past a tag loses no other tag.
   */
  lemma {:induction false} TagsFromExact(s: string, i: nat)
    ensures forall j :: j in TagsFrom(s, i) <==> i <= j && TagAt(s, j)
    decreases |s| - i
  {
    if i < |s| {
      if TagAt(s, i) {
        TagsFromExact(s, i + 3);
        assert !TagAt(s, i + 1) && !TagAt(s, i + 2);
      } else {
        TagsFromExact(s, i + 1);
      }
    }
  }

  function Clamp(x: int, n: nat): (r: nat)
    ensures r <= n
  {
    if x < 0 then 0 else if x > n then n else x
  }

  /** Python's `s[i:j]`, negative bounds counting from the end. */
  function PySlice(s: string, i: int, j: int): string {
    var lo := Clamp(if i < 0 then i + |s| else i, |s|);
    var hi := Clamp(if j < 0 then j + |s| else j, |s|);
    if lo < hi then s[lo..hi] else ""
  }

  /** The `k`-th clause: from one character before its tag to one character before the next, stripped. */
  function ClauseAt(sel: string, tags: seq<nat>, k: nat): string
    requires k < |tags|
  {
    var hi: int := if k + 1 < |tags| then tags[k + 1] as int - 1 else |sel|;
    Strip(PySlice(sel, tags[k] as int - 1, hi))
  }

  /** `final`: the clauses of a selector, one per tag. */
  function Clauses(sel: string): (cs: seq<string>)
    ensures |cs| == |TagsFrom(sel, 0)|
  {
    var tags := TagsFrom(sel, 0);
    seq(|tags|, k requires 0 <= k < |tags| => ClauseAt(sel, tags, k))
  }

  /** `[section for section in final if section[0] != '-']` */
  function Includes(cs: seq<string>): (r: seq<string>)
    requires forall k :: 0 <= k < |cs| ==> cs[k] != ""
    ensures forall c :: c in r ==> c in cs && c[0] != '-'
  {
    if |cs| == 0 then [] else (if cs[0][0] != '-' then [cs[0]] else []) + Includes(cs[1..])
  }

  /** `[section for section in final if section not in includes]` */
  function NotIn(cs: seq<string>, includes: seq<string>): (r: seq<string>) {
    if |cs| == 0 then [] else (if cs[0] !in includes then [cs[0]] else []) + NotIn(cs[1..], includes)
  }

  /** The same filter written as a test on the first character. */
  function Dashed(cs: seq<string>): seq<string>
    requires forall k :: 0 <= k < |cs| ==> cs[k] != ""
  {
    if |cs| == 0 then [] else (if cs[0][0] == '-' then [cs[0]] else []) + Dashed(cs[1..])
  }

  lemma {:induction false} IncludesMembers(cs: seq<string>)
    requires forall k :: 0 <= k < |cs| ==> cs[k] != ""
    ensures forall c :: c in Includes(cs) <==> c in cs && c[0] != '-'
    decreases |cs|
  {
    if |cs| > 0 {
      IncludesMembers(cs[1..]);
      assert forall c :: c in cs <==> c == cs[0] || c in cs[1..];
    }
  }

  lemma {:induction false} NotInIsDashed(cs: seq<string>, includes: seq<string>)
    requires forall k :: 0 <= k < |cs| ==> cs[k] != ""
    requires forall c :: c in cs ==> (c in includes <==> c[0] != '-')
    ensures NotIn(cs, includes) == Dashed(cs)
    decreases |cs|
  {
    if |cs| > 0 {
      assert forall c :: c in cs[1..] ==> c in cs;
      NotInIsDashed(cs[1..], includes);
    }
  }

  /**
   * The clauses split into includes and excludes: a clause is an exclude
   * exactly when its first character is `-`, every clause is one or the
   * other, and each part keeps the order of appearance (both are filters of
   * the clause list).
   */
  lemma ClausePartition(cs: seq<string>)
    requires forall k :: 0 <= k < |cs| ==> cs[k] != ""
    ensures NotIn(cs, Includes(cs)) == Dashed(cs)
    ensures forall c :: c in cs ==> (c in Includes(cs) <==> c[0] != '-')
    ensures forall c :: c in cs ==> (c in Dashed(cs) <==> c[0] == '-')
    ensures |Includes(cs)| + |Dashed(cs)| == |cs|
  {
    IncludesMembers(cs);
    NotInIsDashed(cs, Includes(cs));
    DashedMembers(cs);
  }

  lemma {:induction false} DashedMembers(cs: seq<string>)
    requires forall k :: 0 <= k < |cs| ==> cs[k] != ""
    ensures forall c :: c in Dashed(cs) <==> c in cs && c[0] == '-'
    ensures |Includes(cs)| + |Dashed(cs)| == |cs|
    decreases |cs|
  {
    if |cs| > 0 {
      DashedMembers(cs[1..]);
      assert forall c :: c in cs <==> c == cs[0] || c in cs[1..];
    }
  }

  /** A selector's clauses, split into include and exclude clauses. */
  datatype Selection = Selection(includes: seq<string>, excludes: seq<string>)

  /**
   * The clause splitting of `get_sections`: an empty clause makes the
   * include filter raise, and so does a selector without any include clause
   * (at `includes[0]`).
   */
  function ParseSelector(sel: string): (r: Result<Selection>)
    ensures r.Ok? ==> |r.value.includes| >= 1
  {
    SelectClauses(Clauses(sel))
  }

  /** The include and exclude filters on a list of clauses. */
  function SelectClauses(cs: seq<string>): (r: Result<Selection>)
    ensures r.Ok? ==> |r.value.includes| >= 1
  {
    if exists k :: 0 <= k < |cs| && cs[k] == "" then Err(IndexError)
    else
      var includes := Includes(cs);
      if |includes| == 0 then Err(IndexError)
      else Ok(Selection(includes, NotIn(cs, includes)))
  }

  /** `level, pattern = clause.split(".")`: exactly one `.` or the unpacking raises. */
  function SplitTerm(clause: string): (r: Result<(string, string)>)
    ensures r.Ok? ==> '.' !in r.value.0 && '.' !in r.value.1
  {
    var parts := Split(clause, '.');
    if |parts| != 2 then Err(ValueError) else Ok((parts[0], parts[1]))
  }

  /** `int(level[-1])`. */
  function LevelOf(levelText: string): (r: Result<int>)
    ensures r.Ok? ==> 0 <= r.value <= 9
  {
    if |levelText| == 0 then Err(IndexError)
    else
      var c := levelText[|levelText| - 1];
      if IsDigit(c) then Ok(c as int - '0' as int) else Err(ValueError)
  }

  // ---------------------------------------------------------------- get_cells_containing

  /** The candidates, in their order, whose text contains `pattern`. */
  function Matches(doc: Doc, pattern: string, ids: seq<nat>): (r: seq<nat>)
    requires forall k :: 0 <= k < |ids| ==> ids[k] < |doc|
    decreases |ids|
  {
    if |ids| == 0 then []
    else (if Contains(Source(doc, ids[0]), pattern) then [ids[0]] else []) + Matches(doc, pattern, ids[1..])
  }

  predicate AllIn(ids: seq<nat>, n: nat) {
    forall k :: 0 <= k < |ids| ==> ids[k] < n
  }

  /**
   * `get_cells_containing(pattern, ids, notebook)`. With no candidates it
   * falls back on `range(len(nb.cells))`, but `nb` is not defined in that
   * scope, so it raises; a candidate beyond the last cell raises when the
   * cells are fetched.
   */
  function GetCellsContaining(doc: Doc, pattern: string, ids: seq<nat>): (r: Result<seq<nat>>)
    ensures r.Err? <==> |ids| == 0 || !AllIn(ids, |doc|)
  {
    if |ids| == 0 then Err(NameError)
    else if !AllIn(ids, |doc|) then Err(IndexError)
    else Ok(Matches(doc, pattern, ids))
  }

  /** `get_cells_containing(...)[0]`: no match raises rather than giving an empty result. */
  function FirstContaining(doc: Doc, pattern: string, ids: seq<nat>): Result<nat> {
    var ms :- GetCellsContaining(doc, pattern, ids);
    if |ms| == 0 then Err(IndexError) else Ok(ms[0])
  }

  /** No candidate matches exactly when no candidate's text contains the pattern. */
  lemma {:induction false} MatchesEmpty(doc: Doc, pattern: string, ids: seq<nat>)
    requires AllIn(ids, |doc|)
    ensures |Matches(doc, pattern, ids)| == 0 <==> forall k :: 0 <= k < |ids| ==> !Contains(Source(doc, ids[k]), pattern)
    decreases |ids|
  {
    if |ids| > 0 {
      MatchesEmpty(doc, pattern, ids[1..]);
      assert forall k :: 1 <= k < |ids| ==> ids[k] == ids[1..][k - 1];
    }
  }

  /** The first match is the first candidate whose text contains the pattern; `j` is its position. */
  lemma {:induction false} MatchesFirst(doc: Doc, pattern: string, ids: seq<nat>) returns (j: nat)
    requires AllIn(ids, |doc|) && |Matches(doc, pattern, ids)| > 0
    ensures j < |ids| && ids[j] == Matches(doc, pattern, ids)[0] && Contains(Source(doc, ids[j]), pattern)
    ensures forall k :: 0 <= k < j ==> !Contains(Source(doc, ids[k]), pattern)
    decreases |ids|
  {
    if Contains(Source(doc, ids[0]), pattern) {
      j := 0;
    } else {
      var j1 := MatchesFirst(doc, pattern, ids[1..]);
      j := j1 + 1;
      assert forall k :: 1 <= k < |ids| ==> ids[k] == ids[1..][k - 1];
    }
  }

  /**
   * The lookup gives the first candidate, in candidate order, whose text
   * contains the pattern; it fails exactly when there are no candidates, a
   * candidate is not a cell, or no candidate contains the pattern.
   */
  lemma FirstContainingIsFirst(doc: Doc, pattern: string, ids: seq<nat>)
    ensures FirstContaining(doc, pattern, ids).Err? <==>
              |ids| == 0 || !AllIn(ids, |doc|) || forall k :: 0 <= k < |ids| ==> !Contains(Source(doc, ids[k]), pattern)
    ensures FirstContaining(doc, pattern, ids).Ok? ==>
              exists j :: 0 <= j < |ids| && ids[j] == FirstContaining(doc, pattern, ids).value
                       && Contains(Source(doc, ids[j]), pattern)
                       && forall k :: 0 <= k < j ==> !Contains(Source(doc, ids[k]), pattern)
  {
    if |ids| > 0 && AllIn(ids, |doc|) {
      MatchesEmpty(doc, pattern, ids);
      if |Matches(doc, pattern, ids)| > 0 {
        var j := MatchesFirst(doc, pattern, ids);
      }
    }
  }

  // ---------------------------------------------------------------- get_sections

  /** `range(a, b)`. */
  function Range(a: nat, b: int): (r: seq<nat>)
    ensures |r| == if b > a then b - a else 0
    ensures forall k :: 0 <= k < |r| ==> r[k] == a + k
  {
    if b > a then seq(b - a, k requires 0 <= k < b - a => a + k) else []
  }

  /** `start_end[id]`. */
  function Lookup(se: map<nat, Span>, id: nat): (r: Result<Span>)
    ensures r.Ok? <==> id in se
  {
    if id in se then Ok(se[id]) else Err(KeyError)
  }

  /**
   * The span one further clause picks: its pattern looked up among `range`
   * (every cell of it, whatever the clause's level says), and the hit's
   * entry in the span map.
   */
  function ResolveTerm(doc: Doc, se: map<nat, Span>, range: seq<nat>, term: string): Result<Span> {
    var parts :- SplitTerm(term);
    var id :- FirstContaining(doc, parts.1, range);
    Lookup(se, id)
  }

  /** The spans of the clauses in order; the first clause that fails decides the error. */
  function TermSpans(doc: Doc, se: map<nat, Span>, range: seq<nat>, terms: seq<string>): Result<seq<Span>>
    decreases |terms|
  {
    if |terms| == 0 then Ok([])
    else
      var span :- ResolveTerm(doc, se, range, terms[0]);
      var rest :- TermSpans(doc, se, range, terms[1..]);
      Ok([span] + rest)
  }

  /**
   * The clauses resolve together exactly when each one resolves, and then
   * the k-th span is the k-th clause's.
   */
  lemma {:induction false} TermSpansEach(doc: Doc, se: map<nat, Span>, range: seq<nat>, terms: seq<string>)
    ensures TermSpans(doc, se, range, terms).Ok? <==> forall k :: 0 <= k < |terms| ==> ResolveTerm(doc, se, range, terms[k]).Ok?
    ensures TermSpans(doc, se, range, terms).Ok? ==>
              var spans := TermSpans(doc, se, range, terms).value;
              |spans| == |terms| && forall k :: 0 <= k < |terms| ==> spans[k] == ResolveTerm(doc, se, range, terms[k]).value
    decreases |terms|
  {
    if |terms| > 0 {
      TermSpansEach(doc, se, range, terms[1..]);
      assert forall k :: 1 <= k < |terms| ==> terms[k] == terms[1..][k - 1];
      if ResolveTerm(doc, se, range, terms[0]).Ok? && TermSpans(doc, se, range, terms[1..]).Err? {
        var k :| 0 <= k < |terms[1..]| && ResolveTerm(doc, se, range, terms[1..][k]).Err?;
        assert ResolveTerm(doc, se, range, terms[k + 1]).Err?;
      }
    }
  }

  /** `ids.extend(range(start, end + 1))` over the spans, in order. */
  function Cover(spans: seq<Span>): seq<nat>
    decreases |spans|
  {
    if |spans| == 0 then [] else Range(spans[0].start, spans[0].end + 1) + Cover(spans[1..])
  }

  /** `[idx for idx in range if idx not in excluded]` */
  function Without(range: seq<nat>, excluded: seq<nat>): seq<nat>
    decreases |range|
  {
    if |range| == 0 then []
    else (if range[0] !in excluded then [range[0]] else []) + Without(range[1..], excluded)
  }

  /** The anchor: the first header cell of the first include clause's level that contains its pattern. */
  function Anchor(doc: Doc, hs: Levels, clause: string): Result<nat> {
    var term :- SplitTerm(clause);
    var level :- LevelOf(term.0);
    if level !in hs then Err(KeyError)
    else FirstContaining(doc, term.1, hs[level])
  }

  /**
   * The working range of the anchor's span: `range(start, end)` in
   * `get_sections` (`inclusive` false), `range(start, end + 1)` in
   * `NoteBook.get_section` (`inclusive` true).
   */
  function ParentRange(parent: Span, inclusive: bool): seq<nat> {
    Range(parent.start, if inclusive then parent.end + 1 else parent.end)
  }

  /** The ids a parsed selector picks. */
  function Resolve(doc: Doc, hs: Levels, se: map<nat, Span>, s: Selection, inclusive: bool): Result<seq<nat>>
    requires |s.includes| >= 1
  {
    var parentId :- Anchor(doc, hs, s.includes[0]);
    var parent :- Lookup(se, parentId);
    var range := ParentRange(parent, inclusive);
    if |s.includes| > 1 then
      var spans :- TermSpans(doc, se, range, s.includes[1..]);
      Ok(Cover(spans))
    else if |s.excludes| > 0 then
      var spans :- TermSpans(doc, se, range, s.excludes);
      Ok(Without(range, Cover(spans)))
    else Ok(range)
  }

  /** `get_sections(sections, notebook)` (`inclusive` false) and `NoteBook.get_section` (`inclusive` true). */
  function Sections(sel: string, doc: Doc, inclusive: bool): Result<seq<nat>> {
    var hs := HeaderIndex(doc);
    var s :- ParseSelector(sel);
    Resolve(doc, hs, StartEnd(hs, |doc|), s, inclusive)
  }

  // ---------------------------------------------------------------- properties

  /** The cells a list of spans covers, each span taken with both ends. */
  lemma {:induction false} CoverMembers(spans: seq<Span>, x: nat)
    ensures x in Cover(spans) <==> exists k :: 0 <= k < |spans| && spans[k].start <= x <= spans[k].end
    decreases |spans|
  {
    if |spans| > 0 {
      CoverMembers(spans[1..], x);
      if x in Cover(spans[1..]) {
        var k :| 0 <= k < |spans[1..]| && spans[1..][k].start <= x <= spans[1..][k].end;
        assert spans[k + 1] == spans[1..][k];
      }
      if exists k :: 0 <= k < |spans| && spans[k].start <= x <= spans[k].end {
        var k :| 0 <= k < |spans| && spans[k].start <= x <= spans[k].end;
        if k == 0 {
          assert Range(spans[0].start, spans[0].end + 1)[x - spans[0].start] == x;
        } else {
          assert spans[1..][k - 1] == spans[k];
        }
      }
    }
  }

  /** Cutting out the excluded ids keeps the rest of the range, in order. */
  lemma {:induction false} WithoutMembers(range: seq<nat>, excluded: seq<nat>)
    ensures forall x :: x in Without(range, excluded) <==> x in range && x !in excluded
    ensures |Without(range, excluded)| <= |range|
    ensures StrictlyIncreasing(range) ==> StrictlyIncreasing(Without(range, excluded))
    ensures StrictlyIncreasing(range) && |range| > 0 && |Without(range, excluded)| > 0 ==> range[0] <= Without(range, excluded)[0]
    decreases |range|
  {
    if |range| > 0 {
      WithoutMembers(range[1..], excluded);
      assert forall x :: x in range <==> x == range[0] || x in range[1..];
      if StrictlyIncreasing(range) {
        assert StrictlyIncreasing(range[1..]);
        var w := Without(range[1..], excluded);
        if |w| > 0 {
          assert w[0] in range[1..];
          assert range[0] < w[0];
        }
      }
    }
  }

  lemma HeaderIndexBounded(doc: Doc)
    ensures HasLevels(HeaderIndex(doc)) && Bounded(HeaderIndex(doc), |doc|)
  {
    forall l | 1 <= l <= 4 ensures forall i :: 0 <= i < |HeaderIndex(doc)[l]| ==> HeaderIndex(doc)[l][i] < |doc| {
      if |doc| > 0 {
        HeaderIndexExact(doc, l, 0);
      } else {
        HeaderIndexEmpty(doc, l);
      }
    }
  }

  lemma HeaderIndexEmpty(doc: Doc, l: int)
    requires |doc| == 0 && 1 <= l <= 4
    ensures HeaderIndex(doc)[l] == []
  {
    assert Structure(doc, Typed(Markdown)) == [];
  }

  /**
   * The anchor is a header cell of the level its clause names, it is a key
   * of the span map (so `start_end[id]` never raises), and its entry is the
   * span of one of the headers at that cell, starting at the anchor and
   * closing at or before the last cell.
   */
  lemma AnchorHasSpan(doc: Doc, clause: string)
    requires Anchor(doc, HeaderIndex(doc), clause).Ok?
    ensures var hs := HeaderIndex(doc);
            var id := Anchor(doc, hs, clause).value;
            var level := LevelOf(SplitTerm(clause).value.0).value;
            1 <= level <= 4 && id in hs[level] && id in StartEnd(hs, |doc|)
            && StartEnd(hs, |doc|)[id].start == id
            && id <= StartEnd(hs, |doc|)[id].end <= |doc|
  {
    var hs := HeaderIndex(doc);
    var level := LevelOf(SplitTerm(clause).value.0).value;
    var id := Anchor(doc, hs, clause).value;
    FirstContainingIsFirst(doc, SplitTerm(clause).value.1, hs[level]);
    HeaderIndexBounded(doc);
    StartEndComplete(hs, |doc|, level, id);
    StartEndSound(hs, |doc|);
    var v := StartEnd(hs, |doc|)[id];
    SpanShape(hs, |doc|, v.level, id);
  }

  /** A selector without any `h<digit>.` tag has no include clause. */
  lemma NoTagsFails(sel: string, doc: Doc, inclusive: bool)
    requires TagsFrom(sel, 0) == []
    ensures Sections(sel, doc, inclusive) == Err(IndexError)
  {
  }

  lemma StripOne(c: char)
    ensures Strip([c]) == if IsSpace(c) then "" else [c]
  {
  }

  /**
   * A selector whose first tag is its very first character never resolves:
   * the clause cut starts at index -1, i.e. at the last character, so the
   * first clause is empty (several tags) or is the last character alone,
   * which is blank, an exclude, or a clause without a single `.`-separated
   * level.
   */
  lemma OffsetZeroFails(sel: string, doc: Doc, inclusive: bool)
    requires |TagsFrom(sel, 0)| > 0 && TagsFrom(sel, 0)[0] == 0
    ensures Sections(sel, doc, inclusive).Err?
  {
    OffsetZeroClause(sel);
  }

  /** The parse itself, or the level of the first include clause, fails. */
  lemma OffsetZeroClause(sel: string)
    requires |TagsFrom(sel, 0)| > 0 && TagsFrom(sel, 0)[0] == 0
    ensures ParseSelector(sel).Err?
            || SplitTerm(ParseSelector(sel).value.includes[0]).Err?
            || LevelOf(SplitTerm(ParseSelector(sel).value.includes[0]).value.0).Err?
  {
    if |TagsFrom(sel, 0)| >= 2 {
      FirstClauseEmpty(sel);
      EmptyClauseFails(sel, 0);
    } else {
      var c := sel[|sel| - 1];
      FirstClauseLastChar(sel);
      StripOne(c);
      if IsSpace(c) {
        EmptyClauseFails(sel, 0);
      } else {
        OneClauseParse(sel, c);
        if c != '-' {
          OneCharClause([[c]], c);
        }
      }
    }
  }

  lemma EmptyClauseFails(sel: string, k: nat)
    requires k < |Clauses(sel)| && Clauses(sel)[k] == ""
    ensures ParseSelector(sel) == Err(IndexError)
  {
    var cs := Clauses(sel);
    assert SelectClauses(cs) == Err(IndexError);
  }

  lemma OneClauseParse(sel: string, c: char)
    requires Clauses(sel) == [[c]]
    ensures c == '-' ==> ParseSelector(sel).Err?
    ensures c != '-' ==> ParseSelector(sel) == Ok(Selection([[c]], []))
  {
    OneClauseSelect(c);
  }

  lemma OneClauseSelect(c: char)
    ensures c == '-' ==> SelectClauses([[c]]).Err?
    ensures c != '-' ==> SelectClauses([[c]]) == Ok(Selection([[c]], []))
  {
    var cs := [[c]];
    assert !exists k :: 0 <= k < |cs| && cs[k] == "" by {
      forall k | 0 <= k < |cs| ensures cs[k] != "" {
        assert cs[k] == [c];
      }
    }
    assert cs[1..] == [];
    assert Includes(cs) == (if c != '-' then [[c]] else []) + Includes([]);
    if c != '-' {
      assert Includes(cs) == [[c]];
      assert cs[0] in [[c]];
      assert NotIn(cs, [[c]]) == [] + NotIn([], [[c]]) == [];
    }
  }

  lemma FirstClauseEmpty(sel: string)
    requires |TagsFrom(sel, 0)| >= 2 && TagsFrom(sel, 0)[0] == 0
    ensures Clauses(sel)[0] == ""
  {
    var tags := TagsFrom(sel, 0);
    var hi := tags[1] as int - 1;
    assert tags[1] + 3 <= |sel|;
    assert Clauses(sel)[0] == ClauseAt(sel, tags, 0);
    assert PySlice(sel, -1, hi) == "" by {
      assert Clamp(-1 + |sel|, |sel|) == |sel| - 1;
      assert Clamp(hi, |sel|) == hi;
    }
    StripEmpty();
  }

  lemma StripEmpty()
    ensures Strip("") == ""
  {
  }

  lemma FirstClauseLastChar(sel: string)
    requires |TagsFrom(sel, 0)| == 1 && TagsFrom(sel, 0)[0] == 0
    ensures |sel| > 0 && Clauses(sel) == [Strip([sel[|sel| - 1]])]
  {
    var tags := TagsFrom(sel, 0);
    assert TagAt(sel, tags[0]);
    LastCharSlice(sel);
    var cs := Clauses(sel);
    assert cs[0] == ClauseAt(sel, tags, 0);
    assert cs == [cs[0]];
  }

  lemma LastCharSlice(sel: string)
    requires |sel| > 0
    ensures PySlice(sel, -1, |sel|) == [sel[|sel| - 1]]
  {
    assert Clamp(-1 + |sel|, |sel|) == |sel| - 1;
    assert Clamp(|sel|, |sel|) == |sel|;
  }

  lemma OneCharClause(cs: seq<string>, c: char)
    requires cs == [[c]] && c != '-'
    ensures Includes(cs) == [[c]]
    ensures SplitTerm([c]).Err? || LevelOf(SplitTerm([c]).value.0).Err?
  {
    if c == '.' {
      assert Split([c], '.') == ["", ""];
    } else {
      SplitWhole([c], '.');
    }
  }

  /** The anchor's range holds the cells of its span; with the closing cell exactly when `inclusive`. */
  lemma ParentRangeMembers(p: Span, inclusive: bool, x: nat)
    ensures x in ParentRange(p, inclusive) <==> p.start <= x && (x < p.end || (inclusive && x == p.end))
    ensures StrictlyIncreasing(ParentRange(p, inclusive))
  {
    var r := ParentRange(p, inclusive);
    if p.start <= x && (x < p.end || (inclusive && x == p.end)) {
      assert r[x - p.start] == x;
    }
  }

  /**
   * A selector with a single include clause and no exclude picks the
   * anchor's range: the anchor's span without its closing cell in
   * `get_sections`, with it in `NoteBook.get_section`.
   */
  lemma ResolveWhole(doc: Doc, hs: Levels, se: map<nat, Span>, s: Selection, inclusive: bool)
    requires |s.includes| == 1 && |s.excludes| == 0
    requires Resolve(doc, hs, se, s, inclusive).Ok?
    ensures Anchor(doc, hs, s.includes[0]).Ok? && Anchor(doc, hs, s.includes[0]).value in se
    ensures var p := se[Anchor(doc, hs, s.includes[0]).value];
            var ids := Resolve(doc, hs, se, s, inclusive).value;
            StrictlyIncreasing(ids)
            && forall x :: x in ids <==> p.start <= x && (x < p.end || (inclusive && x == p.end))
  {
    var p := se[Anchor(doc, hs, s.includes[0]).value];
    forall x {
      ParentRangeMembers(p, inclusive, x);
    }
  }

  /**
   * With several include clauses the result is the cells of the spans of
   * the clauses after the first, each span with both ends, where each
   * clause's span is that of the first cell of the anchor's range that
   * contains its pattern; the exclude clauses are not looked at. The spans
   * are laid end to end in clause order, so a cell in two spans (or a
   * clause given twice) appears twice.
   */
  lemma ResolveNarrowed(doc: Doc, hs: Levels, se: map<nat, Span>, s: Selection, inclusive: bool)
    requires |s.includes| > 1
    requires Resolve(doc, hs, se, s, inclusive).Ok?
    ensures Resolve(doc, hs, se, Selection(s.includes, []), inclusive) == Resolve(doc, hs, se, s, inclusive)
    ensures Anchor(doc, hs, s.includes[0]).Ok? && Anchor(doc, hs, s.includes[0]).value in se
    ensures var range := ParentRange(se[Anchor(doc, hs, s.includes[0]).value], inclusive);
            var terms := s.includes[1..];
            var ids := Resolve(doc, hs, se, s, inclusive).value;
            (forall k :: 0 <= k < |terms| ==> ResolveTerm(doc, se, range, terms[k]).Ok?)
            && TermSpans(doc, se, range, terms).Ok? && ids == Cover(TermSpans(doc, se, range, terms).value)
            && forall x :: x in ids <==> exists k :: 0 <= k < |terms| && InTermSpan(doc, se, range, terms[k], x)
  {
    var range := ParentRange(se[Anchor(doc, hs, s.includes[0]).value], inclusive);
    var terms := s.includes[1..];
    TermSpansEach(doc, se, range, terms);
    forall x {
      TermCoverMembers(doc, se, range, terms, x);
    }
  }

  /**
   * With a single include clause and exclude clauses, the result is the
   * anchor's range, in order, less every cell of every excluded span (each
   * with both ends); each excluded span is that of the first cell of the
   * anchor's range that contains the clause's pattern.
   */
  lemma ResolveExcluded(doc: Doc, hs: Levels, se: map<nat, Span>, s: Selection, inclusive: bool)
    requires |s.includes| == 1 && |s.excludes| > 0
    requires Resolve(doc, hs, se, s, inclusive).Ok?
    ensures Anchor(doc, hs, s.includes[0]).Ok? && Anchor(doc, hs, s.includes[0]).value in se
    ensures var range := ParentRange(se[Anchor(doc, hs, s.includes[0]).value], inclusive);
            var ids := Resolve(doc, hs, se, s, inclusive).value;
            (forall k :: 0 <= k < |s.excludes| ==> ResolveTerm(doc, se, range, s.excludes[k]).Ok?)
            && StrictlyIncreasing(ids)
            && forall x :: x in ids <==>
                 x in range && !(exists k :: 0 <= k < |s.excludes| && InTermSpan(doc, se, range, s.excludes[k], x))
  {
    var p := se[Anchor(doc, hs, s.includes[0]).value];
    var range := ParentRange(p, inclusive);
    TermSpansEach(doc, se, range, s.excludes);
    var spans := TermSpans(doc, se, range, s.excludes).value;
    ParentRangeMembers(p, inclusive, 0);
    WithoutMembers(range, Cover(spans));
    forall x {
      TermCoverMembers(doc, se, range, s.excludes, x);
    }
  }

  /** Cell `x` lies in the span of clause `term`, both ends included. */
  predicate InTermSpan(doc: Doc, se: map<nat, Span>, range: seq<nat>, term: string, x: nat) {
    ResolveTerm(doc, se, range, term).Ok? && ResolveTerm(doc, se, range, term).value.start <= x <= ResolveTerm(doc, se, range, term).value.end
  }

  /** The cells the clauses' spans cover are those in the span of some clause. */
  lemma TermCoverMembers(doc: Doc, se: map<nat, Span>, range: seq<nat>, terms: seq<string>, x: nat)
    requires TermSpans(doc, se, range, terms).Ok?
    ensures x in Cover(TermSpans(doc, se, range, terms).value) <==> exists k :: 0 <= k < |terms| && InTermSpan(doc, se, range, terms[k], x)
  {
    TermSpansEach(doc, se, range, terms);
    var spans := TermSpans(doc, se, range, terms).value;
    CoverMembers(spans, x);
    if x in Cover(spans) {
      var k :| 0 <= k < |spans| && spans[k].start <= x <= spans[k].end;
      assert InTermSpan(doc, se, range, terms[k], x);
    }
  }

  /**
   * `get_section` differs from `get_sections` on a selector with a single
   * include clause and no exclude by exactly the anchor span's closing cell,
   * appended at the end; when the span is a single cell, `get_sections`
   * gives nothing and `get_section` that one cell.
   */
  lemma SectionClosingCell(sel: string, doc: Doc)
    requires ParseSelector(sel).Ok?
    requires |ParseSelector(sel).value.includes| == 1 && |ParseSelector(sel).value.excludes| == 0
    requires Sections(sel, doc, false).Ok?
    ensures Sections(sel, doc, true).Ok?
    ensures var hs := HeaderIndex(doc);
            var a := Sections(sel, doc, false).value;
            var b := Sections(sel, doc, true).value;
            var closing := StartEnd(hs, |doc|)[Anchor(doc, hs, ParseSelector(sel).value.includes[0]).value].end;
            b == a + [closing] && (|a| > 0 ==> closing == a[|a| - 1] + 1)
  {
    var hs := HeaderIndex(doc);
    var s := ParseSelector(sel).value;
    AnchorHasSpan(doc, s.includes[0]);
    ResolveClosingCell(doc, hs, StartEnd(hs, |doc|), s);
  }

  lemma ResolveClosingCell(doc: Doc, hs: Levels, se: map<nat, Span>, s: Selection)
    requires |s.includes| == 1 && |s.excludes| == 0
    requires Anchor(doc, hs, s.includes[0]).Ok? && Anchor(doc, hs, s.includes[0]).value in se
    requires se[Anchor(doc, hs, s.includes[0]).value].start <= se[Anchor(doc, hs, s.includes[0]).value].end
    ensures Resolve(doc, hs, se, s, false).Ok? && Resolve(doc, hs, se, s, true).Ok?
    ensures var a := Resolve(doc, hs, se, s, false).value;
            var b := Resolve(doc, hs, se, s, true).value;
            var closing := se[Anchor(doc, hs, s.includes[0]).value].end;
            b == a + [closing] && (|a| > 0 ==> closing == a[|a| - 1] + 1)
  {
    var p := se[Anchor(doc, hs, s.includes[0]).value];
    assert Range(p.start, p.end + 1) == Range(p.start, p.end) + [p.end];
  }

  // ---------------------------------------------------------------- the loops

  lemma {:induction false} MatchesSnoc(doc: Doc, pattern: string, ids: seq<nat>, i: nat)
    requires AllIn(ids, |doc|) && i < |doc|
    ensures AllIn(ids + [i], |doc|)
    ensures Matches(doc, pattern, ids + [i])
            == Matches(doc, pattern, ids) + (if Contains(Source(doc, i), pattern) then [i] else [])
    decreases |ids|
  {
    if |ids| > 0 {
      assert (ids + [i])[1..] == ids[1..] + [i];
      MatchesSnoc(doc, pattern, ids[1..], i);
    } else {
      assert [i][1..] == [];
    }
  }

  /** `get_cells_containing`: fetch every candidate cell, then keep those whose text contains the pattern. */
  method CellsContaining(doc: Doc, pattern: string, ids: seq<nat>) returns (r: Result<seq<nat>>)
    ensures r == GetCellsContaining(doc, pattern, ids)
  {
    if |ids| == 0 {
      return Err(NameError);
    }
    var k := 0;
    while k < |ids|
      invariant 0 <= k <= |ids| && AllIn(ids[..k], |doc|)
    {
      if ids[k] >= |doc| {
        assert !AllIn(ids, |doc|);
        return Err(IndexError);
      }
      k := k + 1;
    }
    assert ids[..k] == ids;
    var matches := [];
    k := 0;
    while k < |ids|
      invariant 0 <= k <= |ids| && matches == Matches(doc, pattern, ids[..k])
    {
      MatchesSnoc(doc, pattern, ids[..k], ids[k]);
      assert ids[..k + 1] == ids[..k] + [ids[k]];
      if Contains(Source(doc, ids[k]), pattern) {
        matches := matches + [ids[k]];
      }
      k := k + 1;
    }
    assert ids[..k] == ids;
    return Ok(matches);
  }

  /** The `finditer` loop of `get_sections`: the positions of the tags (the source stores each one less). */
  method TagStarts(sel: string) returns (tags: seq<nat>)
    ensures tags == TagsFrom(sel, 0)
  {
    tags := [];
    var i := 0;
    while i < |sel|
      invariant i <= |sel| && tags + TagsFrom(sel, i) == TagsFrom(sel, 0)
      decreases |sel| - i
    {
      if TagAt(sel, i) {
        assert TagsFrom(sel, i) == [i] + TagsFrom(sel, i + 3);
        tags := tags + [i];
        i := i + 3;
      } else {
        i := i + 1;
      }
    }
    assert tags + [] == tags;
  }

  /** One clause of a selector, looked up in the anchor's range. */
  method FindSpan(doc: Doc, se: map<nat, Span>, range: seq<nat>, term: string) returns (r: Result<Span>)
    ensures r == ResolveTerm(doc, se, range, term)
  {
    var parts :- SplitTerm(term);
    var ms :- CellsContaining(doc, parts.1, range);
    if |ms| == 0 {
      return Err(IndexError);
    }
    r := Lookup(se, ms[0]);
  }

  lemma {:induction false} TermSpansSnoc(doc: Doc, se: map<nat, Span>, range: seq<nat>, terms: seq<string>, t: string)
    requires TermSpans(doc, se, range, terms).Ok?
    ensures TermSpans(doc, se, range, terms + [t])
            == if ResolveTerm(doc, se, range, t).Err? then Err(ResolveTerm(doc, se, range, t).error)
               else Ok(TermSpans(doc, se, range, terms).value + [ResolveTerm(doc, se, range, t).value])
    decreases |terms|
  {
    if |terms| > 0 {
      assert (terms + [t])[1..] == terms[1..] + [t];
      assert (terms + [t])[0] == terms[0];
      TermSpansSnoc(doc, se, range, terms[1..], t);
      var head := ResolveTerm(doc, se, range, terms[0]).value;
      var tail := TermSpans(doc, se, range, terms[1..]).value;
      assert TermSpans(doc, se, range, terms).value == [head] + tail;
      if ResolveTerm(doc, se, range, t).Ok? {
        var v := ResolveTerm(doc, se, range, t).value;
        assert TermSpans(doc, se, range, terms + [t]) == Ok([head] + (tail + [v]));
        assert [head] + (tail + [v]) == [head] + tail + [v];
      }
    } else {
      assert terms + [t] == [t];
      assert [t][1..] == [];
      assert TermSpans(doc, se, range, [t][1..]) == Ok([]);
      if ResolveTerm(doc, se, range, t).Ok? {
        var v := ResolveTerm(doc, se, range, t).value;
        assert TermSpans(doc, se, range, [t]) == Ok([v] + []);
        assert TermSpans(doc, se, range, terms).value == [];
        assert [v] + [] == [] + [v];
      }
    }
  }

  lemma {:induction false} TermSpansPrefixErr(doc: Doc, se: map<nat, Span>, range: seq<nat>, terms: seq<string>, k: nat)
    requires k <= |terms| && TermSpans(doc, se, range, terms[..k]).Err?
    ensures TermSpans(doc, se, range, terms) == TermSpans(doc, se, range, terms[..k])
    decreases k
  {
    assert k > 0;
    if ResolveTerm(doc, se, range, terms[0]).Ok? {
      assert terms[..k][1..] == terms[1..][..k - 1];
      TermSpansPrefixErr(doc, se, range, terms[1..], k - 1);
    }
  }

  lemma {:induction false} CoverSnoc(spans: seq<Span>, sp: Span)
    ensures Cover(spans + [sp]) == Cover(spans) + Range(sp.start, sp.end + 1)
    decreases |spans|
  {
    if |spans| > 0 {
      assert (spans + [sp])[1..] == spans[1..] + [sp];
      CoverSnoc(spans[1..], sp);
    } else {
      assert [sp][1..] == [];
    }
  }

  /** The `extend` loops of `get_sections`: the cells of each clause's span, both ends, in clause order. */
  method CollectSpans(doc: Doc, se: map<nat, Span>, range: seq<nat>, terms: seq<string>) returns (r: Result<seq<nat>>)
    ensures TermSpans(doc, se, range, terms).Err? ==> r == Err(TermSpans(doc, se, range, terms).error)
    ensures TermSpans(doc, se, range, terms).Ok? ==> r == Ok(Cover(TermSpans(doc, se, range, terms).value))
  {
    var ids := [];
    var k := 0;
    while k < |terms|
      invariant 0 <= k <= |terms|
      invariant TermSpans(doc, se, range, terms[..k]).Ok?
      invariant ids == Cover(TermSpans(doc, se, range, terms[..k]).value)
    {
      assert terms[..k + 1] == terms[..k] + [terms[k]];
      TermSpansSnoc(doc, se, range, terms[..k], terms[k]);
      var span := FindSpan(doc, se, range, terms[k]);
      if span.Err? {
        TermSpansPrefixErr(doc, se, range, terms, k + 1);
        return Err(span.error);
      }
      CoverSnoc(TermSpans(doc, se, range, terms[..k]).value, span.value);
      ids := ids + Range(span.value.start, span.value.end + 1);
      k := k + 1;
    }
    assert terms[..k] == terms;
    return Ok(ids);
  }

  /**
   * `get_sections` (`inclusive` false) and `NoteBook.get_section`
   * (`inclusive` true), step by step: header lists, span map, tag
   * positions, clauses, anchor, then the narrowing or excluding loops.
   */
  method GetSections(sel: string, doc: Doc, inclusive: bool) returns (r: Result<seq<nat>>)
    ensures r == Sections(sel, doc, inclusive)
  {
    var hs := GetHeaderCells(doc);
    var se := SectionStartEnd(hs, |doc|);
    var tags := TagStarts(sel);
    var cs := seq(|tags|, k requires 0 <= k < |tags| => ClauseAt(sel, tags, k));
    assert cs == Clauses(sel);
    if exists k :: 0 <= k < |cs| && cs[k] == "" {
      return Err(IndexError);
    }
    var includes := Includes(cs);
    var excludes := NotIn(cs, includes);
    if |includes| == 0 {
      return Err(IndexError);
    }
    var s := Selection(includes, excludes);
    assert SelectClauses(cs) == Ok(s);
    var parts :- SplitTerm(includes[0]);
    var level :- LevelOf(parts.0);
    if level !in hs {
      return Err(KeyError);
    }
    var candidates := CellsContaining(doc, parts.1, hs[level]);
    if candidates.Err? {
      return Err(candidates.error);
    }
    if |candidates.value| == 0 {
      return Err(IndexError);
    }
    var parentId := candidates.value[0];
    assert Anchor(doc, hs, includes[0]) == Ok(parentId);
    var parent :- Lookup(se, parentId);
    var range := ParentRange(parent, inclusive);
    if |includes| > 1 {
      r := CollectSpans(doc, se, range, includes[1..]);
    } else if |excludes| > 0 {
      var excluded :- CollectSpans(doc, se, range, excludes);
      r := Ok(Without(range, excluded));
    } else {
      r := Ok(range);
    }
  }
}
