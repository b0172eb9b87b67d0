/**
 * How Python renders an integer: `f"{n}"` (plain decimal) and `f"{n:,}"`
 * (decimal with a comma between every group of three digits, counted from
 * the right).
 */
module Numerals {
  import opened Text

  function DigitChar(d: nat): (c: char)
    requires d < 10
    ensures '0' <= c <= '9'
  {
    "0123456789"[d]
  }

  function DigitValue(c: char): nat {
    if '0' <= c <= '9' then c as nat - '0' as nat else 0
  }

  lemma {:induction false} DigitRoundTrip(d: nat)
    requires d < 10
    ensures DigitValue(DigitChar(d)) == d
  {
  }

  /** `str(n)` for `n >= 0`: no leading zeros, `"0"` for zero. */
  function Decimal(n: nat): (s: string)
    ensures |s| >= 1
    ensures forall c :: c in s ==> '0' <= c <= '9'
    ensures n >= 10 ==> s[0] != '0'
    decreases n
  {
    if n < 10 then [DigitChar(n)] else Decimal(n / 10) + [DigitChar(n % 10)]
  }

  /** The value of a string of decimal digits. */
  function ValueOf(s: string): nat
    decreases |s|
  {
    if s == [] then 0 else 10 * ValueOf(s[..|s| - 1]) + DigitValue(s[|s| - 1])
  }

  /** Reading the decimal rendering back gives the number. */
  lemma {:induction false} DecimalRoundTrip(n: nat)
    ensures ValueOf(Decimal(n)) == n
    decreases n
  {
    var s := Decimal(n);
    if n < 10 {
      DigitRoundTrip(n);
    } else {
      DecimalRoundTrip(n / 10);
      assert s[..|s| - 1] == Decimal(n / 10);
      DigitRoundTrip(n % 10);
    }
  }

  /** `f"{i}"` */
  function IntText(i: int): (s: string)
    ensures i >= 0 ==> s == Decimal(i)
    ensures i < 0 ==> s == "-" + Decimal(-i)
  {
    if i < 0 then "-" + Decimal(-i) else Decimal(i)
  }

  /** The three digits of `m < 1000`, with leading zeros. */
  function ThreeDigits(m: nat): (s: string)
    requires m < 1000
    ensures |s| == 3 && forall c :: c in s ==> '0' <= c <= '9'
  {
    [DigitChar(m / 100), DigitChar(m / 10 % 10), DigitChar(m % 10)]
  }

  /** The three digits read back give the number. */
  lemma {:induction false} ThreeDigitsValue(m: nat)
    requires m < 1000
    ensures ValueOf(ThreeDigits(m)) == m
  {
    var s := ThreeDigits(m);
    var a, b, c := m / 100, m / 10 % 10, m % 10;
    DigitRoundTrip(a);
    DigitRoundTrip(b);
    DigitRoundTrip(c);
    assert s[..2][..1] == [DigitChar(a)] && [DigitChar(a)][..0] == [];
    assert ValueOf([DigitChar(a)]) == a;
    assert ValueOf(s[..2]) == 10 * a + b;
    assert ValueOf(s) == 10 * (10 * a + b) + c;
    ThreeDigitsArith(m);
  }

  lemma {:induction false} ThreeDigitsArith(m: nat)
    ensures m == 10 * (10 * (m / 100) + m / 10 % 10) + m % 10
  {
    assert m / 10 / 10 == m / 100;
    assert m / 10 == 10 * (m / 10 / 10) + m / 10 % 10;
  }

  /** `f"{n:,}"` for `n >= 0`. */
  function Grouped(n: nat): (s: string)
    ensures |s| >= 1 && s[0] != ','
    decreases n
  {
    if n < 1000 then
      var d := Decimal(n);
      assert d[0] in d;
      d
    else
      var head := Grouped(n / 1000);
      assert (head + "," + ThreeDigits(n % 1000))[0] == head[0];
      head + "," + ThreeDigits(n % 1000)
  }

  /** `f"{i:,}"` */
  function IntGrouped(i: int): (s: string)
    ensures i >= 0 ==> s == Grouped(i)
    ensures i < 0 ==> s == "-" + Grouped(-i)
  {
    if i < 0 then "-" + Grouped(-i) else Grouped(i)
  }

  lemma {:induction false} DivisionFacts(n: nat)
    requires n >= 1000
    ensures n / 10 / 10 / 10 == n / 1000
    ensures n / 10 / 10 % 10 == n % 1000 / 100
    ensures n / 10 % 10 == n % 1000 / 10 % 10
    ensures n % 10 == n % 1000 % 10
    ensures n / 10 / 10 >= 10
  {
    var q, m := n / 1000, n % 1000;
    assert n == 1000 * q + m;
    assert n / 10 == 100 * q + m / 10;
    assert n / 10 / 10 == 10 * q + m / 100;
  }

  /** The three lowest digits of a number of four or more digits end its decimal rendering. */
  lemma {:induction false} LowDigits(n: nat)
    requires n >= 1000
    ensures Decimal(n) == Decimal(n / 1000) + ThreeDigits(n % 1000)
  {
    var m := n % 1000;
    DivisionFacts(n);
    assert Decimal(n / 10 / 10) == Decimal(n / 1000) + [DigitChar(m / 100)];
    assert Decimal(n / 10) == Decimal(n / 1000) + [DigitChar(m / 100), DigitChar(m / 10 % 10)];
  }

  /** Removing the separators from `f"{n:,}"` gives `f"{n}"`. */
  lemma {:induction false} GroupedDigits(n: nat)
    ensures RemoveAll(Grouped(n), ',') == Decimal(n)
    decreases n
  {
    if n >= 1000 {
      var head, tail := Grouped(n / 1000), ThreeDigits(n % 1000);
      assert Grouped(n) == head + "," + tail;
      GroupedDigits(n / 1000);
      LowDigits(n);
      RemoveSeparator(head, tail, Decimal(n / 1000));
    } else {
      RemoveAllKeeps(Decimal(n), ',');
    }
  }

  /** Dropping the commas of `head + "," + tail`, when `tail` has none. */
  lemma {:induction false} RemoveSeparator(head: string, tail: string, digits: string)
    requires RemoveAll(head, ',') == digits && ',' !in tail
    ensures RemoveAll(head + "," + tail, ',') == digits + tail
  {
    var sep := ",";
    assert RemoveAll(sep, ',') == [] by {
      assert sep[0] == ',' && sep[1..] == [];
    }
    RemoveAllConcat(head, sep, ',');
    assert RemoveAll(head + sep, ',') == digits by {
      assert digits + [] == digits;
    }
    RemoveAllConcat(head + sep, tail, ',');
    RemoveAllKeeps(tail, ',');
  }

  /** Hence `f"{n:,}"` read back without its commas is `n`. */
  lemma {:induction false} GroupedRoundTrip(n: nat)
    ensures ValueOf(RemoveAll(Grouped(n), ',')) == n
  {
    GroupedDigits(n);
    DecimalRoundTrip(n);
  }

  /** Below one thousand the two renderings agree. */
  lemma {:induction false} SmallUngrouped(n: nat)
    requires n < 1000
    ensures Grouped(n) == Decimal(n)
  {
  }

  /** Below one thousand the plain rendering has at most three digits, and more than one only from ten on. */
  lemma {:induction false} DecimalShort(n: nat)
    requires n < 1000
    ensures |Decimal(n)| <= 3
    ensures |Decimal(n)| > 1 ==> n >= 10
  {
    if n >= 10 {
      var m := n / 10;
      assert Decimal(n) == Decimal(m) + [DigitChar(n % 10)];
      if m >= 10 {
        assert m / 10 < 10;
        assert Decimal(m) == Decimal(m / 10) + [DigitChar(m % 10)];
      }
    }
  }

  /**
   * The pieces of a thousands-grouped numeral: a first group of one to three
   * digits, with no leading zero, then groups of exactly three digits.
   */
  predicate ThousandsGroups(g: seq<string>) {
    |g| >= 1
    && 1 <= |g[0]| <= 3 && (|g[0]| > 1 ==> g[0][0] != '0')
    && (forall k :: 1 <= k < |g| ==> |g[k]| == 3)
    && (forall k :: 0 <= k < |g| ==> forall c :: c in g[k] ==> '0' <= c <= '9')
  }

  /** `f"{n:,}"` splits at its commas into thousands groups; there is more than one exactly from one thousand on. */
  lemma {:induction false} GroupedPieces(n: nat)
    ensures ThousandsGroups(SplitOn(Grouped(n), ","))
    ensures |SplitOn(Grouped(n), ",")| == 1 <==> n < 1000
    decreases n
  {
    if n < 1000 {
      DecimalShort(n);
      MissingCharNotContained(Decimal(n), ",", ',');
    } else {
      var head, tail := Grouped(n / 1000), ThreeDigits(n % 1000);
      assert Grouped(n) == head + [','] + tail;
      SplitLast(head, ',', tail);
      GroupedPieces(n / 1000);
      GroupsSnoc(SplitOn(head, ","), tail);
    }
  }

  /** Three more digits after a comma keep the grouping. */
  lemma {:induction false} GroupsSnoc(h: seq<string>, tail: string)
    requires ThousandsGroups(h)
    requires |tail| == 3 && forall c :: c in tail ==> '0' <= c <= '9'
    ensures ThousandsGroups(h + [tail])
  {
    var g := h + [tail];
    forall k | 0 <= k < |g| ensures forall c :: c in g[k] ==> '0' <= c <= '9' {
      if k < |h| {
        assert g[k] == h[k];
      }
    }
  }
}
