/**
 * How the validator cuts the captured projection into items.
 *
 * The first revision splits on every comma and strips each piece
 * (mcp_utils.py). The second walks the characters, toggling an in-quotes
 * flag on every `"` and cutting only at commas outside quotes; a final piece
 * is kept only when it is non-empty before stripping (mcp_utils2.py).
 */
module ColumnSplit {
  import opened Wrappers
  import opened Text

  /** A list comprehension applying `f` to every element. */
  function Mapped(parts: seq<string>, f: string -> string): (r: seq<string>)
    ensures |r| == |parts|
    ensures forall k :: 0 <= k < |parts| ==> r[k] == f(parts[k])
  {
    seq(|parts|, k requires 0 <= k < |parts| => f(parts[k]))
  }

  lemma {:induction false} MappedSnoc(parts: seq<string>, last: string, f: string -> string)
    ensures Mapped(parts + [last], f) == Mapped(parts, f) + [f(last)]
  {
    var l, r := Mapped(parts + [last], f), Mapped(parts, f) + [f(last)];
    forall k | 0 <= k < |l| ensures l[k] == r[k] {
      if k < |parts| {
        assert (parts + [last])[k] == parts[k];
      }
    }
  }

  /** `[col.strip() for col in parts]` */
  function MapStrip(parts: seq<string>): (r: seq<string>)
    ensures |r| == |parts|
    ensures forall k :: 0 <= k < |parts| ==> r[k] == Strip(parts[k])
  {
    Mapped(parts, Strip)
  }

  lemma {:induction false} MapStripSnoc(parts: seq<string>, last: string)
    ensures MapStrip(parts + [last]) == MapStrip(parts) + [Strip(last)]
  {
    MappedSnoc(parts, last, Strip);
  }

  /** First revision: `[col.strip() for col in g.split(',')]`. */
  function CommaItems(g: string): seq<string> {
    MapStrip(SplitOn(g, ","))
  }

  /**
   * The raw pieces the quote-aware loop accumulates over `s` when it starts
   * with the given in-quotes flag; the last piece is the one still being
   * built when the input runs out.
   */
  function RawPieces(s: string, inQuotes: bool): (r: seq<string>)
    ensures |r| >= 1
    decreases |s|
  {
    if s == [] then [""]
    else if s[0] == '"' then Attach([s[0]], RawPieces(s[1..], !inQuotes))
    else if s[0] == ',' && !inQuotes then [""] + RawPieces(s[1..], false)
    else Attach([s[0]], RawPieces(s[1..], inQuotes))
  }

  /** The pieces kept: a last piece that is empty before stripping is dropped. */
  function Kept(raw: seq<string>): (r: seq<string>)
    requires |raw| >= 1
    ensures raw[|raw| - 1] == "" ==> r == raw[..|raw| - 1]
    ensures raw[|raw| - 1] != "" ==> r == raw
  {
    if raw[|raw| - 1] == "" then raw[..|raw| - 1] else raw
  }

  /** Second revision: the stripped items of the quote-aware split. */
  function QuotedItems(g: string): seq<string> {
    MapStrip(Kept(RawPieces(g, false)))
  }

  /** The character loop of the second revision. */
  method SplitQuoted(g: string) returns (columns: seq<string>)
    ensures columns == QuotedItems(g)
  {
    columns := [];
    var current := "";
    var inQuotes := false;
    ghost var done: seq<string> := [];
    var i := 0;
    assert g[i..] == g;
    AttachEmpty(RawPieces(g, false));
    while i < |g|
      invariant 0 <= i <= |g|
      invariant RawPieces(g, false) == done + Attach(current, RawPieces(g[i..], inQuotes))
      invariant columns == MapStrip(done)
    {
      var c := g[i];
      assert g[i..][0] == c && g[i..][1..] == g[i + 1..];
      if c == '"' {
        KeepChar(done, current, g[i..], inQuotes, !inQuotes);
        inQuotes := !inQuotes;
        current := current + [c];
      } else if c == ',' && !inQuotes {
        CutAtComma(done, current, g[i..]);
        MapStripSnoc(done, current);
        done := done + [current];
        columns := columns + [Strip(current)];
        current := "";
      } else {
        KeepChar(done, current, g[i..], inQuotes, inQuotes);
        current := current + [c];
      }
      i := i + 1;
    }
    assert g[i..] == [];
    assert Attach(current, [""]) == [current + ""];
    assert current + "" == current;
    assert RawPieces(g, false) == done + [current];
    if current != "" {
      MapStripSnoc(done, current);
      columns := columns + [Strip(current)];
    } else {
      assert RawPieces(g, false)[..|done|] == done;
    }
  }

  /** One character that does not cut moves into the piece being built. */
  lemma {:induction false} KeepChar(done: seq<string>, current: string, s: string, q: bool, q': bool)
    requires s != []
    requires s[0] == '"' ==> q' == !q
    requires s[0] != '"' ==> !(s[0] == ',' && !q) && q' == q
    ensures done + Attach(current, RawPieces(s, q)) == done + Attach(current + [s[0]], RawPieces(s[1..], q'))
  {
    AttachTwice(current, [s[0]], RawPieces(s[1..], q'));
  }

  /** An unquoted comma closes the piece being built and starts an empty one. */
  lemma {:induction false} CutAtComma(done: seq<string>, current: string, s: string)
    requires s != [] && s[0] == ','
    ensures done + Attach(current, RawPieces(s, false)) == (done + [current]) + Attach("", RawPieces(s[1..], false))
  {
    var rest := RawPieces(s[1..], false);
    AttachEmpty(rest);
    assert current + "" == current;
    assert ([""] + rest)[1..] == rest;
  }

  lemma {:induction false} AttachEmpty(parts: seq<string>)
    requires |parts| >= 1
    ensures Attach("", parts) == parts
  {
    assert "" + parts[0] == parts[0];
  }

  /** Joining the raw pieces with commas gives the projection back: no character is lost. */
  lemma {:induction false} RawPiecesJoin(s: string, inQuotes: bool)
    ensures JoinWith(RawPieces(s, inQuotes), ",") == s
    decreases |s|
  {
    if s != [] {
      var c := s[0];
      assert s == [c] + s[1..];
      if c == '"' {
        RawPiecesJoin(s[1..], !inQuotes);
        JoinAttach([c], RawPieces(s[1..], !inQuotes), ",");
      } else if c == ',' && !inQuotes {
        RawPiecesJoin(s[1..], false);
        JoinCons("", RawPieces(s[1..], false), ",");
      } else {
        RawPiecesJoin(s[1..], inQuotes);
        JoinAttach([c], RawPieces(s[1..], inQuotes), ",");
      }
    }
  }

  /** Without double quotes the loop cuts exactly where `split(',')` does. */
  lemma {:induction false} NoQuotesSplitOnComma(s: string)
    requires '"' !in s
    ensures RawPieces(s, false) == SplitOn(s, ",")
    decreases |s|
  {
    if s == [] {
      assert !Contains(s, ",") by {
        MissingCharNotContained(s, ",", ',');
      }
    } else {
      var c := s[0];
      assert s == [c] + s[1..];
      NoQuotesSplitOnComma(s[1..]);
      if c == ',' {
        SplitOnSep(s[1..], ',');
      } else {
        SplitOnCons(c, s[1..], ',');
      }
    }
  }

  /** Every character of a raw piece comes from the input. */
  lemma {:induction false} RawPiecesInside(s: string, inQuotes: bool, k: nat, c: char)
    requires k < |RawPieces(s, inQuotes)| && c in RawPieces(s, inQuotes)[k]
    ensures c in s
    decreases |s|
  {
    if s != [] {
      var q' := if s[0] == '"' then !inQuotes else if s[0] == ',' && !inQuotes then false else inQuotes;
      var rest := RawPieces(s[1..], q');
      assert s == [s[0]] + s[1..];
      if s[0] == ',' && !inQuotes {
        if k > 0 {
          assert RawPieces(s, inQuotes)[k] == rest[k - 1];
          RawPiecesInside(s[1..], q', k - 1, c);
        }
      } else if k == 0 && c != s[0] {
        assert RawPieces(s, inQuotes)[0] == [s[0]] + rest[0];
        RawPiecesInside(s[1..], q', 0, c);
      } else if k > 0 {
        assert RawPieces(s, inQuotes)[k] == rest[k];
        RawPiecesInside(s[1..], q', k, c);
      }
    }
  }

  /** A projection without double quotes yields items without double quotes, in either revision. */
  lemma {:induction false} UnquotedItems(g: string)
    requires '"' !in g
    ensures forall k :: 0 <= k < |CommaItems(g)| ==> '"' !in CommaItems(g)[k]
  {
    NoQuotesSplitOnComma(g);
    var raw := RawPieces(g, false);
    forall k, c | 0 <= k < |CommaItems(g)| && c in CommaItems(g)[k]
      ensures c != '"'
    {
      StripCharsInside(raw[k], None, c);
      RawPiecesInside(g, false, k, c);
    }
  }

  /**
   * Inside quotes commas do not cut: a quoted segment without inner quotes
   * ends up whole in one piece.
   */
  lemma {:induction false} QuotedRun(a: string, t: string)
    requires '"' !in a
    ensures RawPieces(a + "\"" + t, true) == Attach(a + "\"", RawPieces(t, false))
    decreases |a|
  {
    var s := a + "\"" + t;
    if a == [] {
      assert s == "\"" + t;
      assert s[1..] == t;
    } else {
      assert s[0] == a[0] && s[1..] == a[1..] + "\"" + t;
      QuotedRun(a[1..], t);
      AttachTwice([a[0]], a[1..] + "\"", RawPieces(t, false));
      assert [a[0]] + (a[1..] + "\"") == a + "\"";
    }
  }

  lemma {:induction false} QuotedSegmentWhole(a: string, t: string)
    requires '"' !in a
    ensures RawPieces("\"" + a + "\"" + t, false) == Attach("\"" + a + "\"", RawPieces(t, false))
  {
    var s := "\"" + a + "\"" + t;
    assert s[1..] == a + "\"" + t;
    QuotedRun(a, t);
    AttachTwice("\"", a + "\"", RawPieces(t, false));
    assert "\"" + (a + "\"") == "\"" + a + "\"";
  }

  /** `SELECT "a, b" FROM t` has one projection item, the quoted name kept whole. */
  lemma {:induction false} QuotedCommaOneItem(a: string)
    requires '"' !in a
    ensures QuotedItems("\"" + a + "\"") == [Strip("\"" + a + "\"")]
  {
    QuotedSegmentWhole(a, "");
    assert "\"" + a + "\"" + "" == "\"" + a + "\"";
  }

  /** The number of `"` in `s`. */
  function Quotes(s: string): nat
    decreases |s|
  {
    if s == [] then 0 else (if s[0] == '"' then 1 else 0) + Quotes(s[1..])
  }

  /**
   * Position `j` of `s` is a comma outside quotes for a scan that starts
   * with the given flag: starting outside, an even number of `"` precedes it.
   */
  predicate CutsAt(s: string, inQuotes: bool, j: int) {
    0 <= j < |s| && s[j] == ',' && (Quotes(s[..j]) % 2 == 0) != inQuotes
  }

  /** The first position from `from` on where the scan cuts. */
  function FirstCut(s: string, inQuotes: bool, from: nat): (r: Option<nat>)
    requires from <= |s|
    ensures r.Some? ==> from <= r.value < |s| && CutsAt(s, inQuotes, r.value)
    ensures r.Some? ==> forall i :: from <= i < r.value ==> !CutsAt(s, inQuotes, i)
    ensures r.None? ==> forall i :: from <= i < |s| ==> !CutsAt(s, inQuotes, i)
    decreases |s| - from
  {
    if from == |s| then None
    else if CutsAt(s, inQuotes, from) then Some(from)
    else FirstCut(s, inQuotes, from + 1)
  }

  /**
   * A reference split by positions: cut at the first comma preceded by an
   * even number of `"` (counting from the given flag), then split the rest,
   * which starts outside quotes.
   */
  function CutPieces(s: string, inQuotes: bool): (r: seq<string>)
    ensures |r| >= 1
    decreases |s|
  {
    match FirstCut(s, inQuotes, 0)
    case None => [s]
    case Some(j) => [s[..j]] + CutPieces(s[j + 1..], false)
  }

  /** Dropping a first character that does not cut shifts every cut by one. */
  lemma {:induction false} CutsShift(s: string, inQuotes: bool, inQuotes': bool, j: int)
    requires s != [] && !(s[0] == ',' && !inQuotes)
    requires inQuotes' == if s[0] == '"' then !inQuotes else inQuotes
    ensures CutsAt(s, inQuotes, j + 1) <==> CutsAt(s[1..], inQuotes', j)
  {
    if 0 <= j < |s| - 1 {
      assert s[..j + 1][1..] == s[1..][..j];
      assert s[..j + 1] != [];
      assert Quotes(s[..j + 1]) == (if s[0] == '"' then 1 else 0) + Quotes(s[1..][..j]);
    }
  }

  /** Dropping a first character that does not cut moves the first cut one place left. */
  lemma {:induction false} FirstCutShift(s: string, inQuotes: bool, inQuotes': bool)
    requires s != [] && !(s[0] == ',' && !inQuotes)
    requires inQuotes' == if s[0] == '"' then !inQuotes else inQuotes
    ensures FirstCut(s, inQuotes, 0) ==
      match FirstCut(s[1..], inQuotes', 0)
      case None => None
      case Some(j) => Some(j + 1)
  {
    forall i | 1 <= i < |s|
      ensures CutsAt(s, inQuotes, i) <==> CutsAt(s[1..], inQuotes', i - 1)
    {
      CutsShift(s, inQuotes, inQuotes', i - 1);
    }
    assert !CutsAt(s, inQuotes, 0) by {
      assert s[..0] == [];
    }
    var a, b := FirstCut(s, inQuotes, 0), FirstCut(s[1..], inQuotes', 0);
    if a.Some? {
      assert CutsAt(s[1..], inQuotes', a.value - 1);
    }
    if b.Some? {
      assert CutsAt(s, inQuotes, b.value + 1);
    }
  }

  /**
   * The quote-aware loop cuts exactly at the commas preceded by an even
   * number of `"`; every other comma stays inside its piece.
   */
  lemma {:induction false} RawPiecesCutAtEvenQuotes(s: string, inQuotes: bool)
    ensures RawPieces(s, inQuotes) == CutPieces(s, inQuotes)
    decreases |s|
  {
    if s == [] {
    } else if s[0] == ',' && !inQuotes {
      assert CutsAt(s, inQuotes, 0) by {
        assert s[..0] == [];
      }
      RawPiecesCutAtEvenQuotes(s[1..], false);
    } else {
      var q' := if s[0] == '"' then !inQuotes else inQuotes;
      RawPiecesCutAtEvenQuotes(s[1..], q');
      CutPiecesStep(s, inQuotes, q');
    }
  }

  /** The second revision's items are the stripped pieces between the commas outside quotes. */
  lemma {:induction false} QuotedItemsAtEvenQuotes(g: string)
    ensures QuotedItems(g) == MapStrip(Kept(CutPieces(g, false)))
  {
    RawPiecesCutAtEvenQuotes(g, false);
  }

  /** A first character that does not cut joins the first piece of the rest. */
  lemma {:induction false} CutPiecesStep(s: string, inQuotes: bool, inQuotes': bool)
    requires s != [] && !(s[0] == ',' && !inQuotes)
    requires inQuotes' == if s[0] == '"' then !inQuotes else inQuotes
    ensures CutPieces(s, inQuotes) == Attach([s[0]], CutPieces(s[1..], inQuotes'))
  {
    FirstCutShift(s, inQuotes, inQuotes');
    match FirstCut(s[1..], inQuotes', 0)
    case None =>
      assert CutPieces(s[1..], inQuotes') == [s[1..]];
      assert CutPieces(s, inQuotes) == [s];
      assert [s[0]] + s[1..] == s;
    case Some(j) =>
      CutPiecesJoinFirst(s, inQuotes, inQuotes', j);
  }

  lemma {:induction false} CutPiecesJoinFirst(s: string, inQuotes: bool, inQuotes': bool, j: nat)
    requires s != [] && j + 1 < |s|
    requires FirstCut(s[1..], inQuotes', 0) == Some(j) && FirstCut(s, inQuotes, 0) == Some(j + 1)
    ensures CutPieces(s, inQuotes) == Attach([s[0]], CutPieces(s[1..], inQuotes'))
  {
    CutPiecesUnfold(s[1..], inQuotes', j);
    CutPiecesUnfold(s, inQuotes, j + 1);
    assert s[1..][j + 1..] == s[j + 2..];
    AttachHead(s, j, CutPieces(s[j + 2..], false));
  }

  lemma {:induction false} CutPiecesUnfold(s: string, inQuotes: bool, j: nat)
    requires FirstCut(s, inQuotes, 0) == Some(j)
    ensures j < |s| && CutPieces(s, inQuotes) == [s[..j]] + CutPieces(s[j + 1..], false)
  {
  }

  lemma {:induction false} AttachHead(s: string, j: nat, tail: seq<string>)
    requires j < |s|
    ensures Attach([s[0]], [s[1..][..j]] + tail) == [s[..j + 1]] + tail
  {
    assert [s[0]] + s[1..][..j] == s[..j + 1];
  }


  /** The two revisions cut a projection without quotes into the same items,
      unless it ends in a comma (or is empty): then only the first keeps a
      last, empty item. */
  lemma {:induction false} RevisionsAgreeWithoutQuotes(g: string)
    requires '"' !in g
    ensures var parts := SplitOn(g, ",");
      parts[|parts| - 1] != "" ==> QuotedItems(g) == CommaItems(g)
    ensures var parts := SplitOn(g, ",");
      parts[|parts| - 1] == "" ==> QuotedItems(g) + [""] == CommaItems(g)
  {
    NoQuotesSplitOnComma(g);
    KeptItems(SplitOn(g, ","), QuotedItems(g), CommaItems(g));
  }

  /** Stripping the kept pieces against stripping them all: they differ only by a last, empty item. */
  lemma {:induction false} KeptItems(parts: seq<string>, kept: seq<string>, all: seq<string>)
    requires |parts| >= 1 && kept == MapStrip(Kept(parts)) && all == MapStrip(parts)
    ensures parts[|parts| - 1] != "" ==> kept == all
    ensures parts[|parts| - 1] == "" ==> kept + [""] == all
  {
    var init := parts[..|parts| - 1];
    InitAndLast(parts);
    MapStripSnoc(init, parts[|parts| - 1]);
    assert Strip("") == "";
  }

  lemma {:induction false} InitAndLast(parts: seq<string>)
    requires |parts| >= 1
    ensures parts == parts[..|parts| - 1] + [parts[|parts| - 1]]
  {
  }

  /** An empty projection: the first revision yields one empty item, the second none. */
  lemma {:induction false} EmptyProjection()
    ensures CommaItems("") == [""]
    ensures QuotedItems("") == []
  {
    assert !Contains("", ",") by {
      MissingCharNotContained("", ",", ',');
    }
    assert Strip("") == "";
  }
}
