/**
 * The two regular expressions the validator applies to the lower-cased query,
 * written out as scanners, and the two ways the validator splits the captured
 * projection into items.
 *
 *   tables:     re.findall(r'from\s+([a-zA-Z_][a-zA-Z0-9_]*)', q)
 *   projection: re.search(r'select\s+(.*?)\s+from', q).group(1)
 *
 * `\s` is Python's whitespace (`Text.IsSpace`); `.` is any character but a
 * newline. There is no word boundary: `from` inside `x_from` starts a match.
 */
module SqlScan {
  import opened Wrappers
  import opened Text

  predicate IsLetter(c: char) { 'a' <= c <= 'z' || 'A' <= c <= 'Z' }

  predicate IsDigit(c: char) { '0' <= c <= '9' }

  /** `[a-zA-Z_]` */
  predicate IsIdentStart(c: char) { IsLetter(c) || c == '_' }

  /** `[a-zA-Z0-9_]` */
  predicate IsIdentChar(c: char) { IsIdentStart(c) || IsDigit(c) }

  /** A string the group `([a-zA-Z_][a-zA-Z0-9_]*)` can capture. */
  predicate IsIdentifier(s: string) {
    |s| >= 1 && IsIdentStart(s[0]) && forall k :: 1 <= k < |s| ==> IsIdentChar(s[k])
  }

  /** The two character classes the patterns repeat: `\s` and `[a-zA-Z0-9_]`. */
  datatype CharClass = Space | Word

  predicate In(c: char, cls: CharClass) {
    match cls
    case Space => IsSpace(c)
    case Word => IsIdentChar(c)
  }

  /** Every character of `q[b..e]` is in `cls`. */
  predicate All(q: string, b: nat, e: nat, cls: CharClass)
    requires b <= e <= |q|
  {
    forall k :: b <= k < e ==> In(q[k], cls)
  }

  /** Length of the longest run of `cls` characters starting at `i` (a greedy `*`). */
  function Run(q: string, i: nat, cls: CharClass): (r: nat)
    requires i <= |q|
    ensures i + r <= |q| && All(q, i, i + r, cls)
    ensures i + r == |q| || !In(q[i + r], cls)
    decreases |q| - i
  {
    if i < |q| && In(q[i], cls) then 1 + Run(q, i + 1, cls) else 0
  }

  /** A run of `cls` characters followed by a character that is not ends the greedy run. */
  lemma {:induction false} RunExact(q: string, i: nat, j: nat, cls: CharClass)
    requires i <= j <= |q| && All(q, i, j, cls) && (j == |q| || !In(q[j], cls))
    ensures i + Run(q, i, cls) == j
    decreases j - i
  {
    if i < j {
      assert In(q[i], cls);
      RunExact(q, i + 1, j, cls);
    }
  }

  /** A run of `cls` characters never outlasts the greedy run. */
  lemma {:induction false} RunCovers(q: string, i: nat, j: nat, cls: CharClass)
    requires i <= j <= |q| && All(q, i, j, cls)
    ensures j <= i + Run(q, i, cls)
    decreases j - i
  {
    if i < j {
      assert In(q[i], cls);
      RunCovers(q, i + 1, j, cls);
    }
  }

  function SpaceRun(q: string, i: nat): nat
    requires i <= |q|
  {
    Run(q, i, Space)
  }

  /**
   * The table pattern matches at `f` with its group spanning `q[b..e]`:
   * `from`, at least one whitespace character, then a maximal identifier.
   */
  predicate TableMatch(q: string, f: nat, b: nat, e: nat) {
    f + 4 < b < e <= |q| && OccursAt(q, "from", f) && All(q, f + 4, b, Space)
    && IsIdentStart(q[b]) && All(q, b + 1, e, Word)
    && (e == |q| || !In(q[e], Word))
  }

  /** The table pattern tried at position `f`: the span of its group, if it matches. */
  function TableAt(q: string, f: nat): (r: Option<(nat, nat)>)
    requires f <= |q|
    ensures r.Some? ==> f < r.value.0 < r.value.1 <= |q|
  {
    if OccursAt(q, "from", f) then
      var b := f + 4 + SpaceRun(q, f + 4);
      if b > f + 4 && b < |q| && IsIdentStart(q[b]) then
        Some((b, b + 1 + Run(q, b + 1, Word)))
      else None
    else None
  }

  lemma {:induction false} TableAtComplete(q: string, f: nat, b: nat, e: nat)
    requires f <= |q| && TableMatch(q, f, b, e)
    ensures TableAt(q, f) == Some((b, e))
  {
    assert !In(q[b], Space);
    RunExact(q, f + 4, b, Space);
    RunExact(q, b + 1, e, Word);
  }

  /** The group of a table match is an identifier. */
  lemma {:induction false} TableMatchIdentifier(q: string, f: nat, b: nat, e: nat)
    requires TableMatch(q, f, b, e)
    ensures IsIdentifier(q[b..e])
  {
    forall k | 1 <= k < e - b ensures IsIdentChar(q[b..e][k]) {
      assert q[b..e][k] == q[b + k];
    }
  }

  /**
   * `re.finditer` of the table pattern over `q[p..]`, as the spans of the
   * groups: jump to the next `from`, take the group if the pattern matches
   * there and resume after it, otherwise resume one character further on.
   */
  function TableSpans(q: string, p: nat): (r: seq<(nat, nat)>)
    requires p <= |q|
    ensures forall k :: 0 <= k < |r| ==> p < r[k].0 < r[k].1 <= |q|
    decreases |q| - p
  {
    match IndexFrom(q, "from", p)
    case None => []
    case Some(f) => Found(q, f) + TableSpans(q, Resume(q, f))
  }

  function Found(q: string, f: nat): (r: seq<(nat, nat)>)
    requires f <= |q|
    ensures |r| <= 1 && forall k :: 0 <= k < |r| ==> f < r[k].0 < r[k].1 <= |q|
  {
    match TableAt(q, f)
    case Some(span) => [span]
    case None => []
  }

  function Resume(q: string, f: nat): (r: nat)
    requires f < |q|
    ensures f < r <= |q|
  {
    match TableAt(q, f)
    case Some(span) => span.1
    case None => f + 1
  }

  lemma {:induction false} TableAtSound(q: string, f: nat)
    requires f <= |q| && TableAt(q, f).Some?
    ensures TableMatch(q, f, TableAt(q, f).value.0, TableAt(q, f).value.1)
  {
  }

  /** Every span returned is the group of a match at or after `p`. */
  lemma {:induction false} TableSpansSound(q: string, p: nat, k: nat) returns (f: nat)
    requires p <= |q| && k < |TableSpans(q, p)|
    ensures p <= f && TableMatch(q, f, TableSpans(q, p)[k].0, TableSpans(q, p)[k].1)
    decreases |q| - p
  {
    var g := IndexFrom(q, "from", p).value;
    var found := Found(q, g);
    var rest := TableSpans(q, Resume(q, g));
    assert TableSpans(q, p) == found + rest;
    if k < |found| {
      TableAtSound(q, g);
      f := g;
    } else {
      assert TableSpans(q, p)[k] == rest[k - |found|];
      f := TableSpansSound(q, Resume(q, g), k - |found|);
    }
  }

  /** `re.findall` of the table pattern: the text of each group. */
  function FromTables(q: string): (r: seq<string>)
    ensures |r| == |TableSpans(q, 0)|
    ensures forall k :: 0 <= k < |r| ==> r[k] == q[TableSpans(q, 0)[k].0..TableSpans(q, 0)[k].1]
  {
    var spans := TableSpans(q, 0);
    seq(|spans|, k requires 0 <= k < |spans| => q[spans[k].0..spans[k].1])
  }

  /** Every table name found is an identifier and, in a query without
      upper-case letters, has none either. */
  lemma {:induction false} TablesAreIdentifiers(q: string)
    ensures forall k :: 0 <= k < |FromTables(q)| ==> IsIdentifier(FromTables(q)[k])
    ensures (forall c :: c in q ==> !IsUpper(c)) ==>
      forall k, c :: 0 <= k < |FromTables(q)| && c in FromTables(q)[k] ==> !IsUpper(c)
  {
    var r := FromTables(q);
    var spans := TableSpans(q, 0);
    forall k | 0 <= k < |r| ensures IsIdentifier(r[k]) {
      var f := TableSpansSound(q, 0, k);
      TableMatchIdentifier(q, f, spans[k].0, spans[k].1);
    }
    if forall c :: c in q ==> !IsUpper(c) {
      forall k, c | 0 <= k < |r| && c in r[k] ensures !IsUpper(c) {
        var i :| 0 <= i < |r[k]| && r[k][i] == c;
        assert q[spans[k].0 + i] == c;
      }
    }
  }

  /** A query without `from` mentions no table. */
  lemma {:induction false} NoFromNoTables(q: string)
    requires !Contains(q, "from")
    ensures FromTables(q) == []
  {
  }

  /** Positions before the next `from` never start a match: findall may jump over them. */
  lemma {:induction false} TableSpansSkip(q: string, p: nat, f: nat)
    requires p <= f <= |q|
    requires forall j :: p <= j < f ==> !OccursAt(q, "from", j)
    ensures TableSpans(q, p) == TableSpans(q, f)
  {
    IndexFromSkip(q, "from", p, f);
  }

  /** The table pattern matches at `f` and findall resumes at the end of the group. */
  lemma {:induction false} TableSpansMatch(q: string, f: nat, b: nat, e: nat)
    requires f <= |q| && TableMatch(q, f, b, e)
    ensures TableSpans(q, f) == [(b, e)] + TableSpans(q, e)
  {
    TableAtComplete(q, f, b, e);
  }

  // ---------------------------------------------------------------------
  // select\s+(.*?)\s+from
  // ---------------------------------------------------------------------

  /** `\s+from` matches at `g`: the last `\s+` is greedy and `f` is no space. */
  predicate FromAfterSpace(q: string, g: nat)
    requires g <= |q|
  {
    var m := SpaceRun(q, g);
    m >= 1 && OccursAt(q, "from", g + m)
  }

  /** `.` matches every character of `q[b..e]`. */
  predicate NoNewline(q: string, b: nat, e: nat)
    requires b <= e <= |q|
  {
    forall k :: b <= k < e ==> q[k] != '\n'
  }

  /**
   * The projection pattern matches at `p` with its group spanning `q[b..e]`.
   */
  predicate ProjectionMatch(q: string, p: nat, b: nat, e: nat) {
    p + 6 < b <= e <= |q| && OccursAt(q, "select", p) && All(q, p + 6, b, Space)
    && NoNewline(q, b, e) && FromAfterSpace(q, e)
  }

  /** The lazy group `(.*?)` from `g`: the first end after which `\s+from` matches. */
  function LazyEnd(q: string, g: nat): (r: Option<nat>)
    requires g <= |q|
    ensures r.Some? ==> g <= r.value <= |q|
    decreases |q| - g
  {
    if FromAfterSpace(q, g) then Some(g)
    else if g < |q| && q[g] != '\n' then LazyEnd(q, g + 1)
    else None
  }

  /** The end the lazy group reaches spans no newline and is followed by `\s+from`. */
  lemma {:induction false} LazyEndSound(q: string, g: nat)
    requires g <= |q| && LazyEnd(q, g).Some?
    ensures NoNewline(q, g, LazyEnd(q, g).value) && FromAfterSpace(q, LazyEnd(q, g).value)
    decreases |q| - g
  {
    if !FromAfterSpace(q, g) {
      LazyEndSound(q, g + 1);
    }
  }

  /** Every end the lazy group could reach is tried, shortest first. */
  lemma {:induction false} LazyEndComplete(q: string, g: nat, e: nat)
    requires g <= e <= |q| && NoNewline(q, g, e) && FromAfterSpace(q, e)
    ensures LazyEnd(q, g).Some? && LazyEnd(q, g).value <= e
    decreases e - g
  {
    if g == e {
      LazyEndHere(q, e);
    } else {
      assert q[g] != '\n';
      LazyEndComplete(q, g + 1, e);
      LazyEndStep(q, g);
    }
  }

  lemma {:induction false} LazyEndHere(q: string, g: nat)
    requires g <= |q| && FromAfterSpace(q, g)
    ensures LazyEnd(q, g) == Some(g)
  {
  }

  lemma {:induction false} LazyEndStep(q: string, g: nat)
    requires g < |q| && q[g] != '\n'
    ensures LazyEnd(q, g) == if FromAfterSpace(q, g) then Some(g) else LazyEnd(q, g + 1)
  {
  }

  /** The first `\s+` backs off from `w` characters down to one, longest first. */
  function GreedySpace(q: string, s: nat, w: nat): (r: Option<(nat, nat)>)
    requires s + w <= |q|
    ensures r.Some? ==> s < r.value.0 <= s + w && r.value.0 <= r.value.1 <= |q|
    decreases w
  {
    if w == 0 then None
    else match LazyEnd(q, s + w)
      case Some(e) => Some((s + w, e))
      case None => GreedySpace(q, s, w - 1)
  }

  /** The width kept is one from which the lazy group reaches its end. */
  lemma {:induction false} GreedySpaceSound(q: string, s: nat, w: nat)
    requires s + w <= |q| && GreedySpace(q, s, w).Some?
    ensures LazyEnd(q, GreedySpace(q, s, w).value.0) == Some(GreedySpace(q, s, w).value.1)
    decreases w
  {
    if LazyEnd(q, s + w).None? {
      GreedySpaceSound(q, s, w - 1);
    }
  }

  /** Any width from which the lazy group reaches an end is tried, so the back-off finds one. */
  lemma {:induction false} GreedySpaceComplete(q: string, s: nat, w: nat, b: nat)
    requires s < b <= s + w <= |q| && LazyEnd(q, b).Some?
    ensures GreedySpace(q, s, w).Some?
  {
    GreedySpaceTop(q, s, b - s, b);
    GreedySpaceMonotone(q, s, b - s, w);
  }

  lemma {:induction false} GreedySpaceTop(q: string, s: nat, w: nat, t: nat)
    requires 0 < w && t == s + w <= |q| && LazyEnd(q, t).Some?
    ensures GreedySpace(q, s, w).Some? && GreedySpace(q, s, w).value.0 == t
  {
  }

  /** Backing off from a wider start passes through every narrower width. */
  lemma {:induction false} GreedySpaceMonotone(q: string, s: nat, v: nat, w: nat)
    requires v <= w && s + w <= |q| && GreedySpace(q, s, v).Some?
    ensures GreedySpace(q, s, w).Some?
    decreases w - v
  {
    if v < w {
      GreedySpaceMonotone(q, s, v, w - 1);
      GreedySpaceStep(q, s, w);
    }
  }

  lemma {:induction false} GreedySpaceStep(q: string, s: nat, w: nat)
    requires 0 < w && s + w <= |q|
    ensures GreedySpace(q, s, w - 1).Some? ==> GreedySpace(q, s, w).Some?
  {
  }

  /** Backing off from the widest run, the first width kept is the widest that lets the group end. */
  lemma {:induction false} GreedySpaceWidest(q: string, s: nat, w: nat, b: nat)
    requires s < b <= s + w <= |q| && LazyEnd(q, b).Some?
    ensures GreedySpace(q, s, w).Some? && b <= GreedySpace(q, s, w).value.0
    decreases w
  {
    if b == s + w {
      GreedySpaceTop(q, s, w, b);
    } else {
      GreedySpaceWidest(q, s, w - 1, b);
      GreedySpaceUnfold(q, s, w);
    }
  }

  lemma {:induction false} GreedySpaceUnfold(q: string, s: nat, w: nat)
    requires 0 < w && s + w <= |q|
    ensures GreedySpace(q, s, w) ==
      if LazyEnd(q, s + w).Some? then Some((s + w, LazyEnd(q, s + w).value)) else GreedySpace(q, s, w - 1)
  {
  }


  /**
   * The match `re.search` reports: the leftmost start, there the widest
   * leading `\s+` that still lets the lazy group end, and for that the
   * shortest group.
   */
  ghost predicate SearchMatch(q: string, f: nat, b: nat, e: nat) {
    ProjectionMatch(q, f, b, e)
    && (forall f': nat, b': nat, e': nat :: ProjectionMatch(q, f', b', e') ==> f <= f')
    && (forall b': nat, e': nat :: ProjectionMatch(q, f, b', e') ==> b' <= b)
    && (forall e': nat :: ProjectionMatch(q, f, b, e') ==> e <= e')
  }

  /** The projection pattern tried at position `p`. */
  function ProjectionAt(q: string, p: nat): (r: Option<(nat, nat)>)
    requires p <= |q|
    ensures r.Some? ==> p < r.value.0 <= r.value.1 <= |q|
  {
    if OccursAt(q, "select", p) then GreedySpace(q, p + 6, SpaceRun(q, p + 6))
    else None
  }

  lemma {:induction false} ProjectionAtSound(q: string, p: nat)
    requires p <= |q| && ProjectionAt(q, p).Some?
    ensures ProjectionMatch(q, p, ProjectionAt(q, p).value.0, ProjectionAt(q, p).value.1)
  {
    var (b, e) := ProjectionAt(q, p).value;
    var w := SpaceRun(q, p + 6);
    assert All(q, p + 6, p + 6 + w, Space);
    GreedySpaceSound(q, p + 6, w);
    LazyEndSound(q, b);
  }

  /** At one start, the scan keeps the widest leading `\s+` and then the shortest group. */
  lemma {:induction false} ProjectionAtFirst(q: string, p: nat)
    requires p <= |q| && ProjectionAt(q, p).Some?
    ensures var (b, e) := ProjectionAt(q, p).value;
      (forall b': nat, e': nat :: ProjectionMatch(q, p, b', e') ==> b' <= b)
      && (forall e': nat :: ProjectionMatch(q, p, b, e') ==> e <= e')
  {
    var (b, e) := ProjectionAt(q, p).value;
    var w := SpaceRun(q, p + 6);
    GreedySpaceSound(q, p + 6, w);
    forall b': nat, e': nat | ProjectionMatch(q, p, b', e')
      ensures b' <= b
    {
      RunCovers(q, p + 6, b', Space);
      LazyEndComplete(q, b', e');
      GreedySpaceWidest(q, p + 6, w, b');
    }
    forall e': nat | ProjectionMatch(q, p, b, e')
      ensures e <= e'
    {
      LazyEndComplete(q, b, e');
    }
  }

  lemma {:induction false} ProjectionAtComplete(q: string, p: nat, b: nat, e: nat)
    requires p <= |q| && ProjectionMatch(q, p, b, e)
    ensures ProjectionAt(q, p).Some?
  {
    RunCovers(q, p + 6, b, Space);
    LazyEndComplete(q, b, e);
    GreedySpaceComplete(q, p + 6, SpaceRun(q, p + 6), b);
  }

  /** `re.search` of the projection pattern over `q[p..]`: the leftmost `select` where the scan finds a group. */
  function SearchStart(q: string, p: nat): (r: Option<nat>)
    requires p <= |q|
    ensures r.Some? ==> p <= r.value <= |q| && ProjectionAt(q, r.value).Some?
    decreases |q| - p
  {
    match IndexFrom(q, "select", p)
    case None => None
    case Some(f) =>
      if ProjectionAt(q, f).Some? then Some(f) else SearchStart(q, f + 1)
  }

  /** The captured projection text, if the pattern matches anywhere. */
  function Projection(q: string): Option<string> {
    match SearchStart(q, 0)
    case None => None
    case Some(f) =>
      var (b, e) := ProjectionAt(q, f).value;
      Some(q[b..e])
  }

  /** If the pattern matches at some `f >= p`, the search finds a start no later than `f`. */
  lemma {:induction false} SearchComplete(q: string, p: nat, f: nat, b: nat, e: nat)
    requires p <= f <= |q| && ProjectionMatch(q, f, b, e)
    ensures SearchStart(q, p).Some? && SearchStart(q, p).value <= f
    decreases |q| - p
  {
    var g := IndexFrom(q, "select", p).value;
    assert g <= f;
    if g == f {
      ProjectionAtComplete(q, f, b, e);
    }
    if ProjectionAt(q, g).None? {
      SearchComplete(q, g + 1, f, b, e);
    }
  }


  /** A found projection, with the match that captures it. */
  lemma {:induction false} ProjectionWitness(q: string) returns (f: nat, b: nat, e: nat)
    requires Projection(q).Some?
    ensures SearchMatch(q, f, b, e) && Projection(q).value == q[b..e]
  {
    f := SearchStart(q, 0).value;
    var span := ProjectionAt(q, f).value;
    b, e := span.0, span.1;
    ProjectionAtSound(q, f);
    ProjectionAtFirst(q, f);
    forall f': nat, b': nat, e': nat | ProjectionMatch(q, f', b', e')
      ensures f <= f'
    {
      SearchComplete(q, 0, f', b', e');
    }
  }



  /**
   * `Projection` is exactly the regex search: it yields the group of the
   * match `re.search` reports, and it yields one whenever the pattern
   * matches anywhere.
   */
  lemma {:induction false} ProjectionSpec(q: string)
    ensures Projection(q).Some? ==>
      exists f: nat, b: nat, e: nat :: SearchMatch(q, f, b, e) && Projection(q).value == q[b..e]
    ensures (exists f: nat, b: nat, e: nat :: ProjectionMatch(q, f, b, e)) ==> Projection(q).Some?
  {
    if Projection(q).Some? {
      var f, b, e := ProjectionWitness(q);
    }
    if exists f: nat, b: nat, e: nat :: ProjectionMatch(q, f, b, e) {
      var f: nat, b: nat, e: nat :| ProjectionMatch(q, f, b, e);
      SearchComplete(q, 0, f, b, e);
    }
  }

  lemma {:induction false} FromAfterSpaceContains(q: string, g: nat)
    requires g <= |q| && FromAfterSpace(q, g)
    ensures Contains(q, "from")
  {
    ContainsAt(q, "from", g + SpaceRun(q, g));
  }

  /** A projection is only found when the query contains `from`; so `select 1` has none. */
  lemma {:induction false} ProjectionNeedsFrom(q: string)
    ensures Projection(q).Some? ==> Contains(q, "from")
  {
    if Projection(q).Some? {
      var f, b, e := ProjectionWitness(q);
      FromAfterSpaceContains(q, e);
    }
  }

  /** The captured projection never spans a newline. */
  lemma {:induction false} ProjectionHasNoNewline(q: string)
    ensures Projection(q).Some? ==> '\n' !in Projection(q).value
  {
    if Projection(q).Some? {
      var f, b, e := ProjectionWitness(q);
      assert NoNewline(q, b, e);
      forall c | c in q[b..e] ensures c != '\n' {
        var i :| 0 <= i < e - b && q[b..e][i] == c;
        assert q[b + i] == c;
      }
    }
  }
}
