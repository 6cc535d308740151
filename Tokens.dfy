/**
 * Token extraction: `extract_integers` at app.py:69-70 returns the integer
 * value of every match of the regular expression `\d+` in a text, in order.
 * A match of `\d+` is a maximal run of digits, so the model reads a text as
 * its maximal runs of ASCII digits '0'..'9', each converted in base 10.
 */
module Tokens {

  predicate IsDigit(c: char) { '0' <= c <= '9' }

  predicate AllDigits(s: string) { forall i :: 0 <= i < |s| ==> IsDigit(s[i]) }

  predicate NoDigits(s: string) { forall i :: 0 <= i < |s| ==> !IsDigit(s[i]) }

  function DigitValue(c: char): (d: nat)
    requires IsDigit(c)
    ensures d < 10
  {
    c as int - '0' as int
  }

  function Pow10(k: nat): (p: nat)
    ensures p >= 1
  {
    if k == 0 then 1 else 10 * Pow10(k - 1)
  }

  /** The base-10 value of a digit string, most significant digit first, as
      Python's `int` reads it; it has fewer than |s| + 1 decimal digits. */
  function Value(s: string): (n: nat)
    requires AllDigits(s)
    ensures n < Pow10(|s|)
  {
    if s == [] then 0 else Value(s[..|s| - 1]) * 10 + DigitValue(s[|s| - 1])
  }

  /** Length of the run of digits that s starts with: the greedy match of `\d+`. */
  function DigitPrefix(s: string): (n: nat)
    ensures n <= |s| && AllDigits(s[..n])
    ensures n < |s| ==> !IsDigit(s[n])
  {
    if s == [] || !IsDigit(s[0]) then 0 else 1 + DigitPrefix(s[1..])
  }

  /** The maximal digit runs of s, left to right: what `re.findall(r'\d+', s)`
      returns when only ASCII digits are considered. */
  function Runs(s: string): (rs: seq<string>)
    ensures forall k :: 0 <= k < |rs| ==> rs[k] != [] && AllDigits(rs[k])
    decreases |s|
  {
    if s == [] then []
    else if !IsDigit(s[0]) then Runs(s[1..])
    else
      var n := DigitPrefix(s);
      [s[..n]] + Runs(s[n..])
  }

  function Values(rs: seq<string>): (xs: seq<nat>)
    requires forall k :: 0 <= k < |rs| ==> AllDigits(rs[k])
    ensures |xs| == |rs|
  {
    if rs == [] then [] else [Value(rs[0])] + Values(rs[1..])
  }

  /** `extract_integers` (app.py:69-70). */
  function ExtractIntegers(s: string): (xs: seq<nat>)
    ensures |xs| <= |s|   // at most one integer per character
  {
    RunsCount(s);
    Values(Runs(s))
  }

  /** Every run takes at least one character of s. */
  lemma {:induction false} RunsCount(s: string)
    ensures |Runs(s)| <= |s|
    decreases |s|
  {
    if s != [] {
      if IsDigit(s[0]) {
        RunsCount(s[DigitPrefix(s)..]);
      } else {
        RunsCount(s[1..]);
      }
    }
  }

  /** The digits of s in order, separators dropped. */
  function DigitsOf(s: string): string
  {
    if s == [] then [] else (if IsDigit(s[0]) then [s[0]] else []) + DigitsOf(s[1..])
  }

  function Concat(rs: seq<string>): string
  {
    if rs == [] then [] else rs[0] + Concat(rs[1..])
  }

  // ---------------------------------------------------------------------
  // Digit runs: what they contain and how they compose
  // ---------------------------------------------------------------------

  lemma {:induction false} DigitsOfAppend(a: string, b: string)
    ensures DigitsOf(a + b) == DigitsOf(a) + DigitsOf(b)
  {
    if a == [] {
      assert a + b == b;
    } else {
      assert (a + b)[1..] == a[1..] + b;
      DigitsOfAppend(a[1..], b);
    }
  }

  lemma {:induction false} DigitsOfAllDigits(d: string)
    requires AllDigits(d)
    ensures DigitsOf(d) == d
  {
    if d != [] {
      DigitsOfAllDigits(d[1..]);
    }
  }

  /** The runs hold every digit of the text, in order, and nothing else:
      no digit is lost, duplicated or reordered. */
  lemma {:induction false} RunsCoverDigits(s: string)
    ensures Concat(Runs(s)) == DigitsOf(s)
    decreases |s|
  {
    if s == [] {
    } else if !IsDigit(s[0]) {
      RunsCoverDigits(s[1..]);
      assert s == [s[0]] + s[1..];
      DigitsOfAppend([s[0]], s[1..]);
    } else {
      var n := DigitPrefix(s);
      RunsCoverDigits(s[n..]);
      assert s == s[..n] + s[n..];
      DigitsOfAppend(s[..n], s[n..]);
      DigitsOfAllDigits(s[..n]);
    }
  }

  lemma {:induction false} DigitPrefixAppend(a: string, b: string)
    requires DigitPrefix(a) < |a| || b == [] || !IsDigit(b[0])
    ensures DigitPrefix(a + b) == DigitPrefix(a)
  {
    if a != [] && IsDigit(a[0]) {
      assert (a + b)[1..] == a[1..] + b;
      DigitPrefixAppend(a[1..], b);
    } else if a == [] {
      assert a + b == b;
    }
  }

  lemma {:induction false} DigitPrefixOfDigitsThen(d: string, b: string)
    requires AllDigits(d)
    ensures DigitPrefix(d + b) == |d| + DigitPrefix(b)
  {
    if d == [] {
      assert d + b == b;
    } else {
      assert (d + b)[1..] == d[1..] + b;
      DigitPrefixOfDigitsThen(d[1..], b);
    }
  }

  /** Joining two texts at a boundary that does not fall inside a run of
      digits joins their runs. */
  lemma {:induction false} RunsAppend(a: string, b: string)
    requires a == [] || b == [] || !IsDigit(a[|a| - 1]) || !IsDigit(b[0])
    ensures Runs(a + b) == Runs(a) + Runs(b)
    decreases |a|
  {
    if a == [] {
      assert a + b == b;
    } else if !IsDigit(a[0]) {
      assert (a + b)[1..] == a[1..] + b;
      RunsAppend(a[1..], b);
    } else {
      var n := DigitPrefix(a);
      DigitPrefixAppend(a, b);
      assert (a + b)[..n] == a[..n];
      assert (a + b)[n..] == a[n..] + b;
      if n < |a| {
        RunsAppend(a[n..], b);
      } else {
        assert a[n..] == [];
        assert a[n..] + b == b;
      }
    }
  }

  /** Joining two texts inside a run of digits merges the last run of the
      first with the first run of the second: one run fewer. */
  lemma {:induction false} RunsMerge(a: string, b: string)
    requires a != [] && b != [] && IsDigit(a[|a| - 1]) && IsDigit(b[0])
    ensures |Runs(a + b)| + 1 == |Runs(a)| + |Runs(b)|
    decreases |a|
  {
    if !IsDigit(a[0]) {
      assert (a + b)[1..] == a[1..] + b;
      RunsMerge(a[1..], b);
    } else {
      var n := DigitPrefix(a);
      if n < |a| {
        DigitPrefixAppend(a, b);
        assert (a + b)[n..] == a[n..] + b;
        RunsMerge(a[n..], b);
      } else {
        assert a[..n] == a;
        DigitPrefixOfDigitsThen(a, b);
        var m := DigitPrefix(b);
        assert (a + b)[n + m..] == b[m..];
        assert a[n..] == [];
      }
    }
  }

  /** A non-empty run of digits is one run. */
  lemma RunsOfDigits(d: string)
    requires d != [] && AllDigits(d)
    ensures Runs(d) == [d]
  {
    DigitPrefixOfDigitsThen(d, []);
    assert d + [] == d;
    assert d[..|d|] == d;
  }

  /** A text without digits has no runs. */
  lemma {:induction false} RunsOfNoDigits(s: string)
    requires NoDigits(s)
    ensures Runs(s) == []
  {
    if s != [] {
      RunsOfNoDigits(s[1..]);
    }
  }

  // ---------------------------------------------------------------------
  // extract_integers
  // ---------------------------------------------------------------------

  lemma {:induction false} ValuesAppend(a: seq<string>, b: seq<string>)
    requires forall k :: 0 <= k < |a| ==> AllDigits(a[k])
    requires forall k :: 0 <= k < |b| ==> AllDigits(b[k])
    ensures Values(a + b) == Values(a) + Values(b)
  {
    if a == [] {
      assert a + b == b;
    } else {
      assert (a + b)[1..] == a[1..] + b;
      ValuesAppend(a[1..], b);
    }
  }

  /** Extraction splits over a boundary between texts exactly when that
      boundary is not inside a run of digits: a number cut in two by the
      boundary comes back as two numbers. */
  lemma ExtractAppend(a: string, b: string)
    ensures ExtractIntegers(a + b) == ExtractIntegers(a) + ExtractIntegers(b)
            <==> (a == [] || b == [] || !IsDigit(a[|a| - 1]) || !IsDigit(b[0]))
  {
    if a == [] || b == [] || !IsDigit(a[|a| - 1]) || !IsDigit(b[0]) {
      RunsAppend(a, b);
      ValuesAppend(Runs(a), Runs(b));
    } else {
      RunsMerge(a, b);
    }
  }

  /** A text without digits yields no integers. */
  lemma ExtractNoDigits(s: string)
    requires NoDigits(s)
    ensures ExtractIntegers(s) == []
  {
    RunsOfNoDigits(s);
  }

  /** The integers extracted from a text are the values of its digit runs,
      and those runs hold every digit of the text in order. */
  lemma ExtractIsRunValues(s: string)
    ensures |ExtractIntegers(s)| == |Runs(s)|
    ensures forall k :: 0 <= k < |Runs(s)| ==> ExtractIntegers(s)[k] == Value(Runs(s)[k])
    ensures Concat(Runs(s)) == DigitsOf(s)
  {
    RunsCoverDigits(s);
    ValuesAt(Runs(s));
  }

  lemma {:induction false} ValuesAt(rs: seq<string>)
    requires forall k :: 0 <= k < |rs| ==> AllDigits(rs[k])
    ensures forall k :: 0 <= k < |rs| ==> Values(rs)[k] == Value(rs[k])
  {
    if rs != [] {
      ValuesAt(rs[1..]);
    }
  }

  /** Leading zeros do not change a value ("034" reads as 34). */
  lemma {:induction false} ValueLeadingZero(d: string)
    requires AllDigits(d)
    ensures Value(['0'] + d) == Value(d)
  {
    if d != [] {
      var z := ['0'] + d;
      assert z[..|z| - 1] == ['0'] + d[..|d| - 1];
      ValueLeadingZero(d[..|d| - 1]);
    }
  }

  // ---------------------------------------------------------------------
  // Decimal rendering, the inverse of extraction
  // ---------------------------------------------------------------------

  function DigitChar(d: nat): (c: char)
    requires d < 10
    ensures IsDigit(c) && DigitValue(c) == d
  {
    ('0' as int + d) as char
  }

  /** The canonical decimal text of n (no sign, no leading zero). */
  function Decimal(n: nat): (s: string)
    ensures s != [] && AllDigits(s)
    ensures Value(s) == n
  {
    if n < 10 then [DigitChar(n)]
    else
      var s := Decimal(n / 10) + [DigitChar(n % 10)];
      assert s[..|s| - 1] == Decimal(n / 10);
      s
  }

  /** The text of a list of integers written in decimal and separated by sep. */
  function Join(xs: seq<nat>, sep: string): string
  {
    if xs == [] then []
    else if |xs| == 1 then Decimal(xs[0])
    else Decimal(xs[0]) + sep + Join(xs[1..], sep)
  }

  /** Round trip: writing integers in decimal with any digit-free, non-empty
      separator and extracting them gives them back. */
  lemma {:induction false} ExtractJoin(xs: seq<nat>, sep: string)
    requires sep != [] && NoDigits(sep)
    ensures ExtractIntegers(Join(xs, sep)) == xs
  {
    if xs == [] {
      RunsOfNoDigits([]);
    } else {
      var d := Decimal(xs[0]);
      RunsOfDigits(d);
      if |xs| == 1 {
      } else {
        var rest := Join(xs[1..], sep);
        ExtractJoin(xs[1..], sep);
        RunsOfNoDigits(sep);
        RunsAppend(d, sep);
        RunsAppend(d + sep, rest);
        assert Join(xs, sep) == (d + sep) + rest;
        ValuesAppend(Runs(d + sep), Runs(rest));
        assert xs == [xs[0]] + xs[1..];
      }
    }
  }

  /** Three runs of digits separated by digit-free text are three runs. */
  lemma RunsOfThree(a: string, p: string, b: string, q: string, c: string)
    requires a != [] && AllDigits(a) && b != [] && AllDigits(b) && c != [] && AllDigits(c)
    requires p != [] && NoDigits(p) && q != [] && NoDigits(q)
    ensures Runs(a + p + b + q + c) == [a, b, c]
  {
    RunsOfDigits(a);
    RunsOfDigits(b);
    RunsOfDigits(c);
    RunsOfNoDigits(p);
    RunsOfNoDigits(q);
    RunsAppend(a, p);
    RunsAppend(a + p, b);
    RunsAppend(a + p + b, q);
    RunsAppend(a + p + b + q, c);
  }

  lemma ValuesOfExample()
    ensures Values(["12", "034", "7"]) == [12, 34, 7]
  {
    ValueLeadingZero("34");
    assert ['0'] + "34" == "034";
    assert Value("12") == 12;
    assert Value("7") == 7;
    assert ["12", "034", "7"][1..] == ["034", "7"];
    assert ["034", "7"][1..] == ["7"];
  }

  /** The worked example: "12ab,034 -7" yields [12, 34, 7]; the leading zero
      and the minus sign are not part of any number. */
  lemma ExtractExample()
    ensures ExtractIntegers("12ab,034 -7") == [12, 34, 7]
  {
    assert "12" + "ab," + "034" + " -" + "7" == "12ab,034 -7";
    RunsOfThree("12", "ab,", "034", " -", "7");
    ValuesOfExample();
  }
}
