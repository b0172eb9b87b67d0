/**
 * The handful of Python string operations the core relies on, written out:
 * `str.lower` (ASCII letters), `str.isspace`, `in` on strings, `startswith`,
 * `split(sep)`, `strip` / `lstrip` / `rstrip`, `replace(c, '')` and the
 * slice `s[start:]`.
 */
module Text {
  import opened Wrappers

  /** Python's `str.isspace`, which is also what `\s` and `strip()` use. */
  predicate IsSpace(c: char) {
    var n := c as int;
    (9 <= n <= 13) || (28 <= n <= 32) || n == 0x85 || n == 0xA0 || n == 0x1680
    || (0x2000 <= n <= 0x200A) || n == 0x2028 || n == 0x2029 || n == 0x202F
    || n == 0x205F || n == 0x3000
  }

  predicate IsUpper(c: char) { 'A' <= c <= 'Z' }

  function LowerChar(c: char): (r: char)
    ensures !IsUpper(r)
    ensures IsUpper(c) ==> r as int == c as int + 32
    ensures !IsUpper(c) ==> r == c
  {
    if IsUpper(c) then (c as int + 32) as char else c
  }

  /** `s.lower()` restricted to the ASCII letters. */
  function Lower(s: string): (r: string)
    ensures |r| == |s|
    ensures forall i :: 0 <= i < |s| ==> r[i] == LowerChar(s[i])
  {
    seq(|s|, i requires 0 <= i < |s| => LowerChar(s[i]))
  }

  lemma {:induction false} LowerHasNoUpper(s: string)
    ensures forall c :: c in Lower(s) ==> !IsUpper(c)
  {
    forall c | c in Lower(s) ensures !IsUpper(c) {
      var i :| 0 <= i < |Lower(s)| && Lower(s)[i] == c;
    }
  }

  predicate StartsWith(s: string, prefix: string) {
    |prefix| <= |s| && s[..|prefix|] == prefix
  }

  predicate EndsWith(s: string, suffix: string) {
    |suffix| <= |s| && s[|s| - |suffix|..] == suffix
  }

  /** `sub` occurs in `s` starting at position `i`. */
  predicate OccursAt(s: string, sub: string, i: nat) {
    i + |sub| <= |s| && s[i..i + |sub|] == sub
  }

  lemma {:induction false} OccursAtStartsWith(s: string, sub: string, i: nat)
    requires i <= |s|
    ensures OccursAt(s, sub, i) <==> StartsWith(s[i..], sub)
  {
    if i + |sub| <= |s| {
      assert s[i..][..|sub|] == s[i..i + |sub|];
    }
  }

  /** Python's `sub in s`. */
  predicate Contains(s: string, sub: string) {
    exists i: nat :: i <= |s| && OccursAt(s, sub, i)
  }

  /** Every character of a contained string occurs in the containing one. */
  lemma {:induction false} ContainsChars(s: string, sub: string)
    requires Contains(s, sub)
    ensures forall c :: c in sub ==> c in s
  {
    var i: nat :| i <= |s| && OccursAt(s, sub, i);
    forall c | c in sub ensures c in s {
      var k :| 0 <= k < |sub| && sub[k] == c;
      assert s[i..i + |sub|][k] == s[i + k];
    }
  }

  /** A character of `sub` missing from `s` rules the occurrence out. */
  lemma {:induction false} MissingCharNotContained(s: string, sub: string, c: char)
    requires c in sub && c !in s
    ensures !Contains(s, sub)
  {
    if Contains(s, sub) {
      ContainsChars(s, sub);
    }
  }

  lemma {:induction false} ContainsAt(s: string, sub: string, i: nat)
    requires OccursAt(s, sub, i)
    ensures Contains(s, sub)
  {
  }

  /**
   * An occurrence in `a + b` lies inside `a` or inside `b` when the first
   * character of `b` cannot be part of it.
   */
  lemma {:induction false} ContainsConcat(a: string, b: string, sub: string)
    requires Contains(a + b, sub)
    requires b == [] || b[0] !in sub
    ensures Contains(a, sub) || Contains(b, sub)
  {
    var s := a + b;
    var i: nat :| i <= |s| && OccursAt(s, sub, i);
    if i >= |a| {
      assert b[i - |a|..i - |a| + |sub|] == s[i..i + |sub|];
      assert OccursAt(b, sub, i - |a|);
    } else {
      OccurrenceInsideLeft(a, b, sub, i);
      assert OccursAt(a, sub, i);
    }
  }

  /** An occurrence starting inside `a` that cannot reach `b[0]` lies wholly in `a`. */
  lemma {:induction false} OccurrenceInsideLeft(a: string, b: string, sub: string, i: nat)
    requires i < |a| && OccursAt(a + b, sub, i)
    requires b == [] || b[0] !in sub
    ensures OccursAt(a, sub, i)
  {
    var s := a + b;
    OccurrenceChars(s, sub, i);
    assert |a| < |s| ==> s[|a|] == b[0];
    assert i + |sub| <= |a|;
    assert a[i..i + |sub|] == s[i..i + |sub|];
  }

  /** Every character covered by an occurrence is a character of `sub`. */
  lemma {:induction false} OccurrenceChars(s: string, sub: string, i: nat)
    requires OccursAt(s, sub, i)
    ensures forall k :: i <= k < i + |sub| ==> s[k] in sub
  {
    forall k | i <= k < i + |sub| ensures s[k] in sub {
      assert s[i..i + |sub|][k - i] == s[k];
    }
  }

  /** No occurrence starts inside `a` when `a` lacks the first character of `sub`. */
  lemma {:induction false} ContainsConcatRight(a: string, b: string, sub: string)
    requires Contains(a + b, sub) && |sub| > 0 && sub[0] !in a
    ensures Contains(b, sub)
  {
    var s := a + b;
    var i: nat :| i <= |s| && OccursAt(s, sub, i);
    assert s[i..i + |sub|][0] == s[i];
    assert forall j :: 0 <= j < |a| ==> s[j] == a[j];
    assert b[i - |a|..i - |a| + |sub|] == s[i..i + |sub|];
    assert OccursAt(b, sub, i - |a|);
  }

  /** `s.find(sub, p)`: the leftmost position at or after `p` where `sub` occurs. */
  function IndexFrom(s: string, sub: string, p: nat): (r: Option<nat>)
    requires p <= |s|
    ensures r.Some? ==> p <= r.value <= |s| && OccursAt(s, sub, r.value)
    ensures r.Some? ==> forall j :: p <= j < r.value ==> !OccursAt(s, sub, j)
    ensures r.None? ==> forall j :: p <= j ==> !OccursAt(s, sub, j)
    decreases |s| - p
  {
    if OccursAt(s, sub, p) then Some(p)
    else if p == |s| then None
    else IndexFrom(s, sub, p + 1)
  }

  /** `s.find(sub)`. */
  function IndexOf(s: string, sub: string): (r: Option<nat>)
    ensures r.Some? ==> r.value <= |s| && OccursAt(s, sub, r.value)
    ensures r.Some? ==> forall j :: 0 <= j < r.value ==> !OccursAt(s, sub, j)
    ensures r.None? <==> !Contains(s, sub)
  {
    IndexFrom(s, sub, 0)
  }

  /** The search from `p` stops at the first occurrence. */
  lemma {:induction false} IndexFromIs(s: string, sub: string, p: nat, i: nat)
    requires p <= i <= |s| && OccursAt(s, sub, i)
    requires forall j :: p <= j < i ==> !OccursAt(s, sub, j)
    ensures IndexFrom(s, sub, p) == Some(i)
    decreases i - p
  {
    if p < i {
      IndexFromIs(s, sub, p + 1, i);
    }
  }

  /** Positions known not to start an occurrence can be skipped. */
  lemma {:induction false} IndexFromSkip(s: string, sub: string, p: nat, f: nat)
    requires p <= f <= |s|
    requires forall j :: p <= j < f ==> !OccursAt(s, sub, j)
    ensures IndexFrom(s, sub, p) == IndexFrom(s, sub, f)
    decreases f - p
  {
    if p < f {
      IndexFromSkip(s, sub, p + 1, f);
    }
  }

  /** The first occurrence of `sub` in `a + sub + rest` is the displayed one when
      `a + sub` without its last character holds none. */
  lemma {:induction false} IndexOfFirst(a: string, sub: string, rest: string)
    requires |sub| > 0 && !Contains(a + sub[..|sub| - 1], sub)
    ensures IndexOf(a + sub + rest, sub) == Some(|a|)
  {
    var s := a + sub + rest;
    assert s[|a|..|a| + |sub|] == sub;
    var t := a + sub[..|sub| - 1];
    assert t == s[..|t|];
    forall j | 0 <= j < |a| ensures !OccursAt(s, sub, j) {
      assert s[..|t|][j..j + |sub|] == s[j..j + |sub|];
      assert !OccursAt(t, sub, j);
    }
    IndexFromIs(s, sub, 0, |a|);
  }

  /** Python's `s.split(sep)` for a non-empty separator. */
  function SplitOn(s: string, sep: string): (r: seq<string>)
    requires |sep| > 0
    ensures |r| >= 1
    ensures |r| == 1 <==> !Contains(s, sep)
    ensures !Contains(s, sep) ==> r == [s]
    decreases |s|
  {
    match IndexOf(s, sep)
    case None => [s]
    case Some(i) => [s[..i]] + SplitOn(s[i + |sep|..], sep)
  }

  /** `sep.join(parts)`. */
  function JoinWith(parts: seq<string>, sep: string): string
    requires |parts| >= 1
  {
    if |parts| == 1 then parts[0] else parts[0] + sep + JoinWith(parts[1..], sep)
  }

  lemma {:induction false} Around(s: string, sub: string, i: nat)
    requires OccursAt(s, sub, i)
    ensures s == s[..i] + sub + s[i + |sub|..]
  {
    assert s == s[..i] + s[i..i + |sub|] + s[i + |sub|..];
  }

  /** Joining the pieces of a split with the separator gives the string back. */
  lemma {:induction false} SplitJoin(s: string, sep: string)
    requires |sep| > 0
    ensures JoinWith(SplitOn(s, sep), sep) == s
    decreases |s|
  {
    var r := IndexOf(s, sep);
    if r.Some? {
      var i := r.value;
      SplitJoin(s[i + |sep|..], sep);
      JoinStep(s, sep, i, SplitOn(s[i + |sep|..], sep));
    }
  }

  lemma {:induction false} JoinStep(s: string, sep: string, i: nat, tail: seq<string>)
    requires OccursAt(s, sep, i)
    requires |tail| >= 1 && JoinWith(tail, sep) == s[i + |sep|..]
    ensures JoinWith([s[..i]] + tail, sep) == s
  {
    assert ([s[..i]] + tail)[1..] == tail;
    Around(s, sep, i);
  }

  /** Every character of a piece is in the joined string. */
  lemma {:induction false} JoinInside(parts: seq<string>, sep: string, k: nat, c: char)
    requires k < |parts| && c in parts[k]
    ensures c in JoinWith(parts, sep)
    decreases k
  {
    if k > 0 {
      JoinInside(parts[1..], sep, k - 1, c);
      assert parts[1..][k - 1] == parts[k];
    }
  }

  /** No piece of a split holds the separator. */
  lemma {:induction false} SplitPiecesFree(s: string, sep: string)
    requires |sep| > 0
    ensures forall k :: 0 <= k < |SplitOn(s, sep)| ==> !Contains(SplitOn(s, sep)[k], sep)
    decreases |s|
  {
    match IndexOf(s, sep)
    case None =>
    case Some(i) =>
      SplitPiecesFree(s[i + |sep|..], sep);
      var p := s[..i];
      forall j: nat ensures !OccursAt(p, sep, j) {
        if j + |sep| <= |p| {
          assert p[j..j + |sep|] == s[j..j + |sep|];
          assert !OccursAt(s, sep, j);
        }
      }
  }

  /** Splitting `a + sep + rest` at a first occurrence displayed in the middle. */
  lemma {:induction false} SplitFirst(a: string, sep: string, rest: string)
    requires |sep| > 0 && !Contains(a + sep[..|sep| - 1], sep)
    ensures SplitOn(a + sep + rest, sep) == [a] + SplitOn(rest, sep)
  {
    IndexOfFirst(a, sep, rest);
    var s := a + sep + rest;
    assert s[..|a|] == a;
    assert s[|a| + |sep|..] == rest;
  }

  /** Glue `prefix` to the front of the first of `parts`. */
  function Attach(prefix: string, parts: seq<string>): (r: seq<string>)
    requires |parts| >= 1
    ensures |r| == |parts| && r[0] == prefix + parts[0] && r[1..] == parts[1..]
  {
    [prefix + parts[0]] + parts[1..]
  }

  lemma {:induction false} JoinAttach(prefix: string, parts: seq<string>, sep: string)
    requires |parts| >= 1
    ensures JoinWith(Attach(prefix, parts), sep) == prefix + JoinWith(parts, sep)
  {
    var r := Attach(prefix, parts);
    if |parts| > 1 {
      assert r[1..] == parts[1..];
    }
  }

  lemma {:induction false} JoinCons(part: string, parts: seq<string>, sep: string)
    requires |parts| >= 1
    ensures JoinWith([part] + parts, sep) == part + sep + JoinWith(parts, sep)
  {
    assert ([part] + parts)[1..] == parts;
  }

  /** Searching past a first character is searching the rest, shifted by one. */
  lemma {:induction false} IndexFromShift(c: char, t: string, sub: string, p: nat)
    requires p <= |t|
    ensures IndexFrom([c] + t, sub, p + 1) ==
      (match IndexFrom(t, sub, p) case None => None case Some(i) => Some(i + 1))
    decreases |t| - p
  {
    var s := [c] + t;
    assert OccursAt(s, sub, p + 1) <==> OccursAt(t, sub, p) by {
      if p + |sub| <= |t| {
        assert s[p + 1..p + 1 + |sub|] == t[p..p + |sub|];
      }
    }
    if p < |t| {
      IndexFromShift(c, t, sub, p + 1);
    }
  }

  /** Splitting on a one-character separator, when the string starts with another character. */
  lemma {:induction false} SplitOnCons(c: char, t: string, d: char)
    requires c != d
    ensures SplitOn([c] + t, [d]) == Attach([c], SplitOn(t, [d]))
  {
    var s := [c] + t;
    IndexFromShift(c, t, [d], 0);
    assert !OccursAt(s, [d], 0);
    assert IndexOf(s, [d]) == IndexFrom(s, [d], 1);
    match IndexOf(t, [d])
    case None =>
    case Some(i) =>
      assert s[..i + 1] == [c] + t[..i];
      assert s[i + 2..] == t[i + 1..];
  }

  /** Splitting on a one-character separator, when the string starts with it. */
  lemma {:induction false} SplitOnSep(t: string, d: char)
    ensures SplitOn([d] + t, [d]) == [""] + SplitOn(t, [d])
  {
    var s := [d] + t;
    assert OccursAt(s, [d], 0);
    assert IndexOf(s, [d]) == Some(0);
    assert s[1..] == t;
  }

  /** A prefix without the one-character separator is glued to the first piece. */
  lemma {:induction false} SplitOnPrefix(x: string, y: string, d: char)
    requires d !in x
    ensures SplitOn(x + y, [d]) == Attach(x, SplitOn(y, [d]))
    decreases |x|
  {
    if x == [] {
      assert x + y == y;
      assert Attach(x, SplitOn(y, [d]))[0] == SplitOn(y, [d])[0];
    } else {
      var t := x[1..] + y;
      assert x + y == [x[0]] + t;
      SplitOnCons(x[0], t, d);
      SplitOnPrefix(x[1..], y, d);
      ConsSlice(x, SplitOn(y, [d])[0]);
      AttachTwice([x[0]], x[1..], SplitOn(y, [d]));
    }
  }

  lemma {:induction false} ConsSlice(x: string, w: string)
    requires |x| > 0
    ensures [x[0]] + (x[1..] + w) == x + w
  {
    assert x == [x[0]] + x[1..];
  }

  /** Around the first occurrence of a one-character separator: the piece before it, and the first piece after it. */
  lemma {:induction false} SplitCharFirst(a: string, d: char, rest: string)
    requires d !in a
    ensures |SplitOn(a + [d] + rest, [d])| >= 2
    ensures SplitOn(a + [d] + rest, [d])[0] == a
    ensures SplitOn(a + [d] + rest, [d])[1] == SplitOn(rest, [d])[0]
  {
    var y := [d] + rest;
    assert a + [d] + rest == a + y;
    SplitOnPrefix(a, y, d);
    SplitOnSep(rest, d);
    var pieces := SplitOn(y, [d]);
    assert pieces[0] == "" && pieces[1] == SplitOn(rest, [d])[0];
    AttachEmptyFirst(a, pieces);
  }

  /** Gluing two prefixes one after the other glues their concatenation. */
  lemma {:induction false} AttachTwice(p: string, q: string, parts: seq<string>)
    requires |parts| >= 1
    ensures Attach(p, Attach(q, parts)) == Attach(p + q, parts)
  {
    assert p + (q + parts[0]) == p + q + parts[0];
  }

  /** Gluing a prefix to a list whose first piece is empty. */
  lemma {:induction false} AttachEmptyFirst(a: string, pieces: seq<string>)
    requires |pieces| >= 2 && pieces[0] == ""
    ensures |Attach(a, pieces)| >= 2 && Attach(a, pieces)[0] == a && Attach(a, pieces)[1] == pieces[1]
  {
    assert a + "" == a;
  }

  /** A string containing `sub` still contains it with text in front. */
  lemma {:induction false} ContainsSuffix(x: string, y: string, sub: string)
    ensures Contains(y, sub) ==> Contains(x + y, sub)
  {
    if Contains(y, sub) {
      ContainsWithin(x, y, "", sub);
      assert x + y + "" == x + y;
    }
  }

  /** An occurrence inside `y` is an occurrence inside `x + y + z`. */
  lemma {:induction false} ContainsWithin(x: string, y: string, z: string, sub: string)
    requires Contains(y, sub)
    ensures Contains(x + y + z, sub)
  {
    var i: nat :| i <= |y| && OccursAt(y, sub, i);
    var s := x + y + z;
    assert s[|x| + i..|x| + i + |sub|] == y[i..i + |sub|];
    assert OccursAt(s, sub, |x| + i);
  }

  /** The argument of Python's `strip`: `None` strips whitespace, `Some(cs)`
      strips the characters of `cs`. */
  predicate Stripped(c: char, chars: Option<string>) {
    match chars
    case None => IsSpace(c)
    case Some(cs) => c in cs
  }

  /** `s.lstrip(chars)`. */
  function LStrip(s: string, chars: Option<string>): (r: string)
    ensures |r| <= |s| && r == s[|s| - |r|..]
    ensures r == [] || !Stripped(r[0], chars)
    ensures forall i :: 0 <= i < |s| - |r| ==> Stripped(s[i], chars)
    decreases |s|
  {
    if s != [] && Stripped(s[0], chars) then LStrip(s[1..], chars) else s
  }

  /** `s.rstrip(chars)`. */
  function RStrip(s: string, chars: Option<string>): (r: string)
    ensures |r| <= |s| && r == s[..|r|]
    ensures r == [] || !Stripped(r[|r| - 1], chars)
    ensures forall i :: |r| <= i < |s| ==> Stripped(s[i], chars)
    decreases |s|
  {
    if s != [] && Stripped(s[|s| - 1], chars) then RStrip(s[..|s| - 1], chars) else s
  }

  /** `s.strip(chars)`. */
  function StripChars(s: string, chars: Option<string>): string {
    LStrip(RStrip(s, chars), chars)
  }

  /** `s.strip()`. */
  function Strip(s: string): string {
    StripChars(s, None)
  }

  /** A string whose ends are not stripped is its own strip. */
  lemma {:induction false} StripNoop(s: string, chars: Option<string>)
    requires s == [] || (!Stripped(s[0], chars) && !Stripped(s[|s| - 1], chars))
    ensures StripChars(s, chars) == s
  {
  }

  /** Stripping only removes characters: whatever is left was in `s`. */
  lemma {:induction false} StripCharsInside(s: string, chars: Option<string>, c: char)
    requires c in StripChars(s, chars)
    ensures c in s
  {
    var r := RStrip(s, chars);
    var l := LStrip(r, chars);
    var i :| 0 <= i < |l| && l[i] == c;
    assert l[i] == r[|r| - |l| + i];
    assert r[|r| - |l| + i] == s[|r| - |l| + i];
  }

  /** `s.replace(c, '')`. */
  function RemoveAll(s: string, c: char): (r: string)
    ensures c !in r
    decreases |s|
  {
    if s == [] then []
    else (if s[0] == c then [] else [s[0]]) + RemoveAll(s[1..], c)
  }

  /** Only `c` is removed: every other character is kept, and a string without `c` is unchanged. */
  lemma {:induction false} RemoveAllKeeps(s: string, c: char)
    ensures forall x :: x in RemoveAll(s, c) ==> x in s
    ensures c !in s ==> RemoveAll(s, c) == s
    decreases |s|
  {
    if s != [] {
      RemoveAllKeeps(s[1..], c);
      var head := if s[0] == c then [] else [s[0]];
      assert RemoveAll(s, c) == head + RemoveAll(s[1..], c);
      assert s == [s[0]] + s[1..];
    }
  }

  lemma {:induction false} RemoveAllConcat(a: string, b: string, c: char)
    ensures RemoveAll(a + b, c) == RemoveAll(a, c) + RemoveAll(b, c)
    decreases |a|
  {
    if a == [] {
      assert a + b == b;
    } else {
      var head := if a[0] == c then [] else [a[0]];
      assert (a + b)[0] == a[0] && (a + b)[1..] == a[1..] + b;
      assert RemoveAll(a + b, c) == head + RemoveAll(a[1..] + b, c);
      RemoveAllConcat(a[1..], b, c);
      assert RemoveAll(a, c) == head + RemoveAll(a[1..], c);
      var x, y := RemoveAll(a[1..], c), RemoveAll(b, c);
      assert head + (x + y) == (head + x) + y;
    }
  }

  /** The Python slice `s[start:]`, negative starts counting from the end. */
  function SliceFrom<T>(s: seq<T>, start: int): (r: seq<T>)
    ensures 0 <= start <= |s| ==> r == s[start..]
    ensures -|s| <= start < 0 ==> r == s[|s| + start..]
    ensures start < -|s| ==> r == s
    ensures start > |s| ==> r == []
  {
    var k := if start < 0 then (if start + |s| < 0 then 0 else start + |s|)
             else (if start > |s| then |s| else start);
    s[k..]
  }

  /** A string containing `sub` contains every prefix of `sub`. */
  lemma {:induction false} ContainsPrefix(s: string, sub: string, pre: string)
    requires Contains(s, sub) && StartsWith(sub, pre)
    ensures Contains(s, pre)
  {
    var i: nat :| i <= |s| && OccursAt(s, sub, i);
    assert s[i..i + |pre|] == s[i..i + |sub|][..|pre|];
    ContainsAt(s, pre, i);
  }

  /** Gluing a prefix is not affected by a piece added at the end. */
  lemma {:induction false} AttachSnoc(prefix: string, parts: seq<string>, last: string)
    requires |parts| >= 1
    ensures Attach(prefix, parts + [last]) == Attach(prefix, parts) + [last]
  {
    assert (parts + [last])[1..] == parts[1..] + [last];
  }

  /** After the last one-character separator comes the last piece. */
  lemma {:induction false} SplitLast(x: string, d: char, y: string)
    requires d !in y
    ensures SplitOn(x + [d] + y, [d]) == SplitOn(x, [d]) + [y]
    decreases |x|
  {
    if x == [] {
      SplitLastEmpty(d, y);
      assert x + [d] + y == [d] + y;
    } else {
      var c, rest := x[0], x[1..];
      assert x == [c] + rest;
      SplitLast(rest, d, y);
      if c == d {
        SplitLastSep(rest, d, y);
      } else {
        SplitLastCons(c, rest, d, y);
      }
    }
  }

  lemma {:induction false} SplitLastEmpty(d: char, y: string)
    requires d !in y
    ensures SplitOn([d] + y, [d]) == SplitOn([], [d]) + [y]
  {
    MissingCharNotContained(y, [d], d);
    MissingCharNotContained([], [d], d);
    SplitOnSep(y, d);
  }

  lemma {:induction false} SplitLastSep(rest: string, d: char, y: string)
    requires SplitOn(rest + [d] + y, [d]) == SplitOn(rest, [d]) + [y]
    ensures SplitOn([d] + rest + [d] + y, [d]) == SplitOn([d] + rest, [d]) + [y]
  {
    var t, pieces := rest + [d] + y, SplitOn(rest, [d]);
    assert [d] + rest + [d] + y == [d] + t;
    SplitOnSep(t, d);
    SplitOnSep(rest, d);
    assert [""] + (pieces + [y]) == ([""] + pieces) + [y];
  }

  lemma {:induction false} SplitLastCons(c: char, rest: string, d: char, y: string)
    requires c != d
    requires SplitOn(rest + [d] + y, [d]) == SplitOn(rest, [d]) + [y]
    ensures SplitOn([c] + rest + [d] + y, [d]) == SplitOn([c] + rest, [d]) + [y]
  {
    assert [c] + rest + [d] + y == [c] + (rest + [d] + y);
    SplitOnCons(c, rest + [d] + y, d);
    SplitOnCons(c, rest, d);
    AttachSnoc([c], SplitOn(rest, [d]), y);
  }
}
