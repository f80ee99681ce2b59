/**
 * `NoteBook.get_user_metadata`: the first cell of a notebook holds its
 * title and a bulleted list of `key: value; value; ...` lines. The keyed
 * lines become the user metadata, the others stay behind as the cell's new
 * text.
 */
module UserMeta {
  import opened Outcomes
  import opened Text
  import opened Metadata

  /** `re.match("\# \w+", src)`: the text opens with `# ` and a word character. */
  predicate IsTitle(src: string) {
    |src| >= 3 && src[0] == '#' && src[1] == ' ' && IsWordChar(src[2])
  }

  /** The end of the run of digits starting at `i`. */
  function DigitRun(l: string, i: nat): (j: nat)
    requires i <= |l|
    ensures i <= j <= |l|
    ensures forall k :: i <= k < j ==> IsDigit(l[k])
    ensures j < |l| ==> !IsDigit(l[j])
    decreases |l| - i
  {
    if i < |l| && IsDigit(l[i]) then DigitRun(l, i + 1) else i
  }

  /**
   * Where the key starts after the list marker `(?:\-|\*|\d+)\.? `: a dash,
   * a star or a run of digits, an optional dot, then a space.
   */
  function AfterBullet(l: string): (r: Option<nat>)
    ensures r.Some? ==> 2 <= r.value <= |l| && l[r.value - 1] == ' '
  {
    if |l| == 0 then None
    else
      var j := if l[0] == '-' || l[0] == '*' then 1 else DigitRun(l, 0);
      if j == 0 || j >= |l| then None
      else if l[j] == '.' && j + 1 < |l| && l[j + 1] == ' ' then Some(j + 2)
      else if l[j] == ' ' then Some(j + 1)
      else None
  }

  /** The position of the first `:` at or after `i`, or `|l|`. */
  function ColonFrom(l: string, i: nat): (c: nat)
    requires i <= |l|
    ensures i <= c <= |l|
    ensures forall k :: i <= k < c ==> l[k] != ':'
    ensures c < |l| ==> l[c] == ':'
    decreases |l| - i
  {
    if i == |l| || l[i] == ':' then i else ColonFrom(l, i + 1)
  }

  /**
   * `re.match("(?:\-|\*|\d+)\.? ([^\:]+?)\: (.+)", l)`: the key is the text
   * from after the marker up to the first `:`, at least one character; that
   * `:` must be followed by a space and at least one more character, all of
   * which form the value.
   */
  function MetaLine(l: string): (r: Option<(string, string)>)
    ensures r.Some? ==> |r.value.0| >= 1 && ':' !in r.value.0 && |r.value.1| >= 1
  {
    match AfterBullet(l)
    case None => None
    case Some(p) =>
      var c := ColonFrom(l, p);
      if c == p || c + 2 >= |l| || l[c + 1] != ' ' then None
      else Some((l[p..c], l[c + 2..]))
  }

  /** `val = [s.strip() for s in value.split(';')]`, a single value unwrapped. */
  function MetaValue(v: string): Json {
    var parts := Split(v, ';');
    if |parts| == 1 then JStr(Strip(parts[0]))
    else JList(seq(|parts|, i requires 0 <= i < |parts| => JStr(Strip(parts[i]))))
  }

  /** The dict `meta` after the given lines: later lines overwrite earlier ones. */
  function MetaOf(lines: seq<string>): Meta
    decreases |lines|
  {
    if |lines| == 0 then map[]
    else
      var front := MetaOf(lines[..|lines| - 1]);
      match MetaLine(lines[|lines| - 1])
      case None => front
      case Some(kv) => front[kv.0 := MetaValue(kv.1)]
  }

  /** The string `content` after the given lines: every line without a key, each closed by `\n`. */
  function ContentOf(lines: seq<string>): string
    decreases |lines|
  {
    if |lines| == 0 then ""
    else ContentOf(lines[..|lines| - 1]) + (if MetaLine(lines[|lines| - 1]).None? then lines[|lines| - 1] + "\n" else "")
  }

  /** The lines that carry no key, in order. */
  function Kept(lines: seq<string>): seq<string>
    decreases |lines|
  {
    if |lines| == 0 then []
    else Kept(lines[..|lines| - 1]) + (if MetaLine(lines[|lines| - 1]).None? then [lines[|lines| - 1]] else [])
  }

  /**
   * The user metadata and the new first-cell text, or `None` when the text
   * does not open with a level-1 title (the source then only warns, and the
   * cache it reads back is never set).
   */
  function UserMetadata(src: string): Option<(Meta, string)> {
    if !IsTitle(src) then None
    else
      var lines := SplitLines(src);
      Some((MetaOf(lines), ContentOf(lines)))
  }

  /** The loop of `get_user_metadata` over the lines of the first cell. */
  method ScanMetadataLines(lines: seq<string>) returns (meta: Meta, content: string)
    ensures meta == MetaOf(lines) && content == ContentOf(lines)
  {
    meta := map[];
    content := "";
    var i := 0;
    while i < |lines|
      invariant 0 <= i <= |lines|
      invariant meta == MetaOf(lines[..i]) && content == ContentOf(lines[..i])
    {
      assert lines[..i + 1][..i] == lines[..i];
      var m := MetaLine(lines[i]);
      if m.Some? {
        meta := meta[m.value.0 := MetaValue(m.value.1)];
      } else {
        content := content + lines[i] + "\n";
      }
      i := i + 1;
    }
    assert lines[..i] == lines;
  }

  // ---------------------------------------------------------------- properties

  /** A line written as marker, key, `: ` and value reads back as that key and value. */
  lemma MetaLineRoundTrip(marker: string, dot: bool, key: string, value: string)
    requires marker == "-" || marker == "*" || (|marker| >= 1 && forall k :: 0 <= k < |marker| ==> IsDigit(marker[k]))
    requires |key| >= 1 && ':' !in key && |value| >= 1
    ensures MetaLine(marker + (if dot then "." else "") + " " + key + ": " + value) == Some((key, value))
  {
    var bullet := marker + (if dot then "." else "") + " ";
    var rest := key + ": " + value;
    var l := bullet + rest;
    assert marker + (if dot then "." else "") + " " + key + ": " + value == l;
    BulletEnd(marker, dot, rest);
    assert l[|bullet|..] == rest;
    KeyValueAt(l, |bullet|, key, value);
  }

  /**
   * The converse: a line yields a key and a value only when it is a `-`, `*`
   * or digit marker, an optional dot, a space, that key, `: ` and that
   * value. So a line without a list marker, such as `Title: x`, is never
   * read as metadata.
   */
  lemma MetaLineShape(l: string) returns (marker: string, dot: bool)
    ensures MetaLine(l).Some? ==>
              (marker == "-" || marker == "*" || (|marker| >= 1 && forall k :: 0 <= k < |marker| ==> IsDigit(marker[k])))
              && l == marker + (if dot then "." else "") + " " + MetaLine(l).value.0 + ": " + MetaLine(l).value.1
  {
    marker, dot := "", false;
    if MetaLine(l).Some? {
      marker, dot := BulletShape(l);
      var p := AfterBullet(l).value;
      var c := ColonFrom(l, p);
      var key, value := l[p..c], l[c + 2..];
      assert l[p..] == key + ": " + value;
      Regroup(l, p, marker + (if dot then "." else "") + " ", key, value);
    }
  }

  /** The text up to where the key starts is a marker, an optional dot and a space. */
  lemma BulletShape(l: string) returns (marker: string, dot: bool)
    requires AfterBullet(l).Some?
    ensures marker == "-" || marker == "*" || (|marker| >= 1 && forall k :: 0 <= k < |marker| ==> IsDigit(marker[k]))
    ensures l[..AfterBullet(l).value] == marker + (if dot then "." else "") + " "
  {
    var j := if l[0] == '-' || l[0] == '*' then 1 else DigitRun(l, 0);
    var p := AfterBullet(l).value;
    marker := l[..j];
    dot := p == j + 2;
  }

  lemma Regroup(l: string, p: nat, bullet: string, key: string, value: string)
    requires p <= |l| && l[..p] == bullet && l[p..] == key + ": " + value
    ensures l == bullet + key + ": " + value
  {
    assert l == l[..p] + l[p..];
  }

  /** The marker is read up to and including its space. */
  lemma BulletEnd(marker: string, dot: bool, rest: string)
    requires marker == "-" || marker == "*" || (|marker| >= 1 && forall k :: 0 <= k < |marker| ==> IsDigit(marker[k]))
    requires |rest| >= 1
    ensures AfterBullet(marker + (if dot then "." else "") + " " + rest) == Some(|marker| + (if dot then 2 else 1))
  {
    var l := marker + (if dot then "." else "") + " " + rest;
    assert l[..|marker|] == marker;
    assert l[|marker|] == (if dot then '.' else ' ');
    if dot {
      assert l[|marker| + 1] == ' ';
    }
    if marker != "-" && marker != "*" {
      DigitRunTo(l, |marker|);
    }
  }

  /** After the marker, a key without `:`, then `: ` and a value, are read back as that key and value. */
  lemma KeyValueAt(l: string, p: nat, key: string, value: string)
    requires AfterBullet(l) == Some(p) && l[p..] == key + ": " + value
    requires |key| >= 1 && ':' !in key && |value| >= 1
    ensures MetaLine(l) == Some((key, value))
  {
    forall k | p <= k < p + |key| ensures l[k] != ':' {
      assert l[k] == l[p..][k - p] == key[k - p];
    }
    assert l[p + |key|] == l[p..][|key|] == ':';
    ColonIs(l, p, p + |key|);
    assert l[p + |key| + 1] == l[p..][|key| + 1] == ' ';
    assert l[p..p + |key|] == l[p..][..|key|] == key;
    assert l[p + |key| + 2..] == l[p..][|key| + 2..] == value;
  }

  lemma DigitRunTo(l: string, n: nat)
    requires 1 <= n < |l| && !IsDigit(l[n]) && forall k :: 0 <= k < n ==> IsDigit(l[k])
    ensures DigitRun(l, 0) == n
  {
  }

  lemma ColonIs(l: string, p: nat, c: nat)
    requires p <= c < |l| && l[c] == ':' && forall k :: p <= k < c ==> l[k] != ':'
    ensures ColonFrom(l, p) == c
  {
  }

  /** The line is a keyed line for `key`. */
  predicate Carries(l: string, key: string) {
    MetaLine(l).Some? && MetaLine(l).value.0 == key
  }

  /** A key is in the user metadata exactly when some line carries it. */
  lemma {:induction false} MetaOfKeys(lines: seq<string>, key: string)
    ensures key in MetaOf(lines) <==> exists i :: 0 <= i < |lines| && Carries(lines[i], key)
    decreases |lines|
  {
    if |lines| > 0 {
      var front := lines[..|lines| - 1];
      var last := |lines| - 1;
      MetaOfKeys(front, key);
      if Carries(lines[last], key) {
        assert key in MetaOf(lines);
      } else {
        assert key in MetaOf(lines) <==> key in MetaOf(front);
        if key in MetaOf(front) {
          var i :| 0 <= i < |front| && Carries(front[i], key);
          assert lines[i] == front[i];
        }
        if exists i :: 0 <= i < |lines| && Carries(lines[i], key) {
          var i :| 0 <= i < |lines| && Carries(lines[i], key);
          assert front[i] == lines[i];
        }
      }
    }
  }

  /**
   * The value of a key is that of the last line that carries it: a line
   * that carries the key and after which no line carries it again.
   */
  lemma {:induction false} MetaOfLastWins(lines: seq<string>, i: nat)
    requires i < |lines| && MetaLine(lines[i]).Some?
    requires forall j :: i < j < |lines| ==> MetaLine(lines[j]).None? || MetaLine(lines[j]).value.0 != MetaLine(lines[i]).value.0
    ensures MetaLine(lines[i]).value.0 in MetaOf(lines)
    ensures MetaOf(lines)[MetaLine(lines[i]).value.0] == MetaValue(MetaLine(lines[i]).value.1)
    decreases |lines|
  {
    var front := lines[..|lines| - 1];
    if i < |front| {
      assert forall j :: 0 <= j < |front| ==> front[j] == lines[j];
      MetaOfLastWins(front, i);
    }
  }

  lemma NoBreakFirst(l: string, rest: string)
    requires forall k :: 0 <= k < |l| ==> !IsLineBreak(l[k])
    ensures FirstBreak(l + "\n" + rest) == |l|
  {
    var s := l + "\n" + rest;
    assert forall k :: 0 <= k < |l| ==> s[k] == l[k];
    assert IsLineBreak(s[|l|]);
  }

  lemma SplitLinesCons(l: string, rest: string)
    requires forall k :: 0 <= k < |l| ==> !IsLineBreak(l[k])
    ensures SplitLines(l + "\n" + rest) == [l] + SplitLines(rest)
  {
    var s := l + "\n" + rest;
    NoBreakFirst(l, rest);
    assert s[..|l|] == l;
    assert s[|l| + 1..] == rest;
  }

  /**
   * The new first-cell text holds exactly the lines without a key, in
   * order: split into lines again it gives them back.
   */
  lemma ContentLines(lines: seq<string>)
    requires forall j, k :: 0 <= j < |lines| && 0 <= k < |lines[j]| ==> !IsLineBreak(lines[j][k])
    ensures SplitLines(ContentOf(lines)) == Kept(lines)
    ensures forall j :: 0 <= j < |Kept(lines)| ==> MetaLine(Kept(lines)[j]).None?
  {
    KeptContent(lines);
    KeptSound(lines);
    ClosedLines(Kept(lines));
  }

  /** The kept lines are lines of the cell, none of which carries a key. */
  lemma {:induction false} KeptSound(lines: seq<string>)
    ensures forall j :: 0 <= j < |Kept(lines)| ==> Kept(lines)[j] in lines && MetaLine(Kept(lines)[j]).None?
    decreases |lines|
  {
    if |lines| > 0 {
      var front := lines[..|lines| - 1];
      KeptSound(front);
      assert forall l :: l in front ==> l in lines;
    }
  }

  /** `ContentOf` is the kept lines, each closed by a newline. */
  function Closed(ls: seq<string>): string
    decreases |ls|
  {
    if |ls| == 0 then "" else ls[0] + "\n" + Closed(ls[1..])
  }

  lemma {:induction false} KeptContent(lines: seq<string>)
    ensures ContentOf(lines) == Closed(Kept(lines))
    decreases |lines|
  {
    if |lines| > 0 {
      var front := lines[..|lines| - 1];
      var last := lines[|lines| - 1];
      KeptContent(front);
      assert ContentOf(lines) == ContentOf(front) + (if MetaLine(last).None? then last + "\n" else "");
      assert Kept(lines) == Kept(front) + (if MetaLine(last).None? then [last] else []);
      if MetaLine(last).None? {
        ClosedSnoc(Kept(front), last);
        Assoc(ContentOf(front), last, "\n");
      } else {
        assert Kept(front) + [] == Kept(front);
        assert ContentOf(front) + "" == ContentOf(front);
        assert Closed(Kept(lines)) == Closed(Kept(front));
      }
    }
  }

  lemma {:induction false} ClosedSnoc(ls: seq<string>, l: string)
    ensures Closed(ls + [l]) == Closed(ls) + (l + "\n")
    decreases |ls|
  {
    if |ls| == 0 {
      assert ls + [l] == [l];
      assert Closed([l]) == l + "\n" + Closed([]);
    } else {
      var t := ls[1..];
      assert (ls + [l])[1..] == t + [l];
      ClosedSnoc(t, l);
      Assoc(ls[0] + "\n", Closed(t), l + "\n");
    }
  }

  lemma Assoc(a: string, b: string, c: string)
    ensures a + (b + c) == (a + b) + c
  {
  }

  lemma {:induction false} ClosedLines(ls: seq<string>)
    requires forall j, k :: 0 <= j < |ls| && 0 <= k < |ls[j]| ==> !IsLineBreak(ls[j][k])
    ensures SplitLines(Closed(ls)) == ls
    decreases |ls|
  {
    if |ls| > 0 {
      ClosedLines(ls[1..]);
      SplitLinesCons(ls[0], Closed(ls[1..]));
    }
  }

}
