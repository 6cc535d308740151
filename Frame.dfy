/**
 * A frame of the mat and what the notification handler computes from it:
 * the two threshold counts and the ten largest values (app.py:124-126) and
 * the row-major ROWS x COLS grid (app.py:141).
 */
module Frame {

  /** The mat's sensor grid (app.py:20-21); a frame holds Rows * Cols values. */
  const Rows: nat := 60
  const Cols: nat := 22
  const Size: nat := Rows * Cols

  // ---------------------------------------------------------------------
  // Threshold counts: sum(x > t for x in chunk)
  // ---------------------------------------------------------------------

  function CountAbove(s: seq<int>, t: int): (n: nat)
    ensures n <= |s|
  {
    if s == [] then 0 else (if s[0] > t then 1 else 0) + CountAbove(s[1..], t)
  }

  /** `count_greater_than_135` (app.py:124). */
  function CountAbove135(frame: seq<int>): (n: nat)
    ensures n <= |frame|
  {
    CountAbove(frame, 135)
  }

  /** `count_greater_than_80` as written (app.py:125): it tests `x > 135`,
      not `x > 80`, although the panel labels it "> 80" (app.py:132). */
  function CountLabelledAbove80(frame: seq<int>): (n: nat)
    ensures n == CountAbove135(frame)
    ensures n <= CountAbove(frame, 80)   // never more than the label promises
  {
    CountAboveAntitone(frame, 80, 135);
    CountAbove(frame, 135)
  }

  lemma {:induction false} CountAboveAppend(a: seq<int>, b: seq<int>, t: int)
    ensures CountAbove(a + b, t) == CountAbove(a, t) + CountAbove(b, t)
  {
    if a == [] {
      assert a + b == b;
    } else {
      assert (a + b)[1..] == a[1..] + b;
      CountAboveAppend(a[1..], b, t);
    }
  }

  /** The count is zero exactly when no value exceeds t, and |s| exactly when
      every value does. */
  lemma {:induction false} CountAboveExtremes(s: seq<int>, t: int)
    ensures CountAbove(s, t) == 0 <==> (forall i :: 0 <= i < |s| ==> s[i] <= t)
    ensures CountAbove(s, t) == |s| <==> (forall i :: 0 <= i < |s| ==> s[i] > t)
  {
    if s != [] {
      CountAboveExtremes(s[1..], t);
      assert forall i :: 1 <= i < |s| ==> s[i] == s[1..][i - 1];
    }
  }

  /** A higher threshold never counts more. */
  lemma {:induction false} CountAboveAntitone(s: seq<int>, t1: int, t2: int)
    requires t1 <= t2
    ensures CountAbove(s, t2) <= CountAbove(s, t1)
  {
    if s != [] {
      CountAboveAntitone(s[1..], t1, t2);
    }
  }

  /** A count does not depend on the order of the values. */
  lemma {:induction false} CountAbovePermutation(a: seq<int>, b: seq<int>, t: int)
    requires multiset(a) == multiset(b)
    ensures CountAbove(a, t) == CountAbove(b, t)
    decreases |a|
  {
    if a != [] {
      assert a[0] in multiset(b);
      var j :| 0 <= j < |b| && b[j] == a[0];
      var b' := b[..j] + b[j + 1..];
      assert b == b[..j] + [b[j]] + b[j + 1..];
      assert a == [a[0]] + a[1..];
      assert multiset(b) == multiset(b[..j]) + multiset{b[j]} + multiset(b[j + 1..]);
      assert multiset(a) == multiset{a[0]} + multiset(a[1..]);
      assert multiset(b') == multiset(b[..j]) + multiset(b[j + 1..]);
      assert multiset(b') == multiset(b) - multiset{a[0]};
      assert multiset(a[1..]) == multiset(a) - multiset{a[0]};
      CountAbovePermutation(a[1..], b', t);
      CountAboveAppend(b[..j] + [b[j]], b[j + 1..], t);
      CountAboveAppend(b[..j], [b[j]], t);
      CountAboveAppend(b[..j], b[j + 1..], t);
    } else {
      assert |b| == |multiset(b)|;
    }
  }

  /** As written, the count shown as "> 80" is the count of values above 135;
      it can differ from the number of values above 80 (a frame of 100s). */
  lemma LabelledAbove80Differs()
    ensures forall frame: seq<int> :: CountLabelledAbove80(frame) == CountAbove135(frame)
    ensures var frame := seq(Size, i => 100);
            CountLabelledAbove80(frame) == 0 && CountAbove(frame, 80) == Size
  {
    var frame := seq(Size, i => 100);
    CountAboveExtremes(frame, 135);
    CountAboveExtremes(frame, 80);
  }

  // ---------------------------------------------------------------------
  // The ten largest values: sorted(chunk, reverse=True)[:10]
  // ---------------------------------------------------------------------

  predicate NonIncreasing(s: seq<int>)
  {
    forall i, j :: 0 <= i < j < |s| ==> s[i] >= s[j]
  }

  function Insert(x: int, s: seq<int>): (r: seq<int>)
    requires NonIncreasing(s)
    ensures NonIncreasing(r) && multiset(r) == multiset(s) + multiset{x}
    ensures |r| == |s| + 1 && (r[0] == x || (s != [] && r[0] == s[0]))
  {
    if s == [] || x >= s[0] then [x] + s
    else
      var t := Insert(x, s[1..]);
      assert s == [s[0]] + s[1..];
      assert s[0] >= t[0];
      assert forall k :: 0 <= k < |t| ==> t[0] >= t[k];
      [s[0]] + t
  }

  /** `sorted(s, reverse=True)`: the values of s, largest first. */
  function SortDescending(s: seq<int>): (r: seq<int>)
    ensures NonIncreasing(r) && multiset(r) == multiset(s)
  {
    if s == [] then []
    else
      assert s == [s[0]] + s[1..];
      Insert(s[0], SortDescending(s[1..]))
  }

  lemma HeadIsLargest(s: seq<int>, x: int)
    requires NonIncreasing(s) && x in multiset(s)
    ensures x <= s[0]
  {
    var i :| 0 <= i < |s| && s[i] == x;
  }

  /** Every value after position k of a non-increasing sequence is at most
      the one just before k. */
  lemma SuffixBelow(s: seq<int>, k: nat, x: int)
    requires NonIncreasing(s) && 0 < k <= |s| && x in multiset(s[k..])
    ensures x <= s[k - 1]
  {
    var i :| 0 <= i < |s[k..]| && s[k..][i] == x;
    assert s[k + i] == x;
  }

  /** Two non-increasing sequences with the same values are equal: the sorted
      order of a frame is determined by its values alone. */
  lemma {:induction false} SortedUnique(a: seq<int>, b: seq<int>)
    requires NonIncreasing(a) && NonIncreasing(b) && multiset(a) == multiset(b)
    ensures a == b
    decreases |a|
  {
    if a == [] {
      assert |b| == |multiset(b)|;
    } else {
      assert |b| == |multiset(b)| == |multiset(a)| == |a|;
      HeadIsLargest(a, b[0]);
      HeadIsLargest(b, a[0]);
      assert multiset(a) == multiset{a[0]} + multiset(a[1..]) by {
        assert a == [a[0]] + a[1..];
      }
      assert multiset(b) == multiset{b[0]} + multiset(b[1..]) by {
        assert b == [b[0]] + b[1..];
      }
      assert a[0] == b[0];
      assert multiset(a[1..]) == multiset(a) - multiset{a[0]};
      assert multiset(b[1..]) == multiset(b) - multiset{b[0]};
      SortedUnique(a[1..], b[1..]);
    }
  }

  /** Keeping the first k values of a sorted arrangement of s keeps values of
      s, and whatever is left out is at most the last value kept. */
  lemma SortedPrefix(s: seq<int>, sorted: seq<int>, k: nat)
    requires NonIncreasing(sorted) && multiset(sorted) == multiset(s) && k <= |sorted|
    ensures multiset(sorted[..k]) <= multiset(s)
    ensures forall x :: x in multiset(s) - multiset(sorted[..k]) ==> k < |s| && (k > 0 ==> x <= sorted[k - 1])
  {
    assert sorted == sorted[..k] + sorted[k..];
    assert multiset(s) - multiset(sorted[..k]) == multiset(sorted[k..]);
    assert |sorted| == |multiset(sorted)| == |s|;
    forall x | x in multiset(sorted[k..])
      ensures k < |s| && (k > 0 ==> x <= sorted[k - 1])
    {
      if k > 0 {
        SuffixBelow(sorted, k, x);
      }
    }
  }

  /** `top_10_highest` (app.py:126): as many of the largest values as fit in
      ten, largest first, taken from the frame's own values; a value is left
      out only when ten are kept, and then it is at most the tenth. */
  function Top10(s: seq<int>): (r: seq<int>)
    ensures |r| == if |s| < 10 then |s| else 10
    ensures NonIncreasing(r)
    ensures multiset(r) <= multiset(s)
    ensures forall x :: x in multiset(s) - multiset(r) ==> |r| == 10 && x <= r[9]
  {
    var sorted := SortDescending(s);
    assert |sorted| == |multiset(sorted)| == |s|;
    var k := if |s| < 10 then |s| else 10;
    SortedPrefix(s, sorted, k);
    sorted[..k]
  }

  /** The frame 0, 1, ..., n - 1 in row-major order. */
  function Ramp(n: nat): (s: seq<int>)
    ensures |s| == n && forall i :: 0 <= i < n ==> s[i] == i
  {
    seq(n, i => i)
  }

  lemma {:induction false} CountAboveRamp(n: nat, t: nat)
    requires t < n
    ensures CountAbove(Ramp(n), t) == n - t - 1
  {
    if n > t + 1 {
      CountAboveRamp(n - 1, t);
      assert Ramp(n) == Ramp(n - 1) + [n - 1];
      CountAboveAppend(Ramp(n - 1), [n - 1], t);
    } else {
      CountAboveExtremes(Ramp(n), t);
    }
  }

  lemma {:induction false} RampReversedSameValues(n: nat)
    ensures multiset(Ramp(n)) == multiset(seq(n, i => n - 1 - i))
  {
    if n > 0 {
      RampReversedSameValues(n - 1);
      assert Ramp(n) == Ramp(n - 1) + [n - 1];
      assert seq(n, i => n - 1 - i) == [n - 1] + seq(n - 1, i => n - 2 - i);
    }
  }

  /** For the frame 0..1319 in row-major order, 1184 values are above 135 and
      the ten largest are 1319 down to 1310. */
  lemma RampStats()
    ensures CountAbove135(Ramp(Size)) == 1184
    ensures Top10(Ramp(Size)) == seq(10, i => 1319 - i)
  {
    CountAboveRamp(Size, 135);
    var down := seq(Size, i => Size - 1 - i);
    RampReversedSameValues(Size);
    SortedUnique(SortDescending(Ramp(Size)), down);
    assert down[..10] == seq(10, i => 1319 - i);
  }

  // ---------------------------------------------------------------------
  // Row-major reshape: np.array(chunk).reshape(ROWS, COLS)
  // ---------------------------------------------------------------------

  predicate IsGrid(g: seq<seq<int>>)
  {
    |g| == Rows && forall r :: 0 <= r < Rows ==> |g[r]| == Cols
  }

  /** The frame as a grid: flat index i lands in row i / Cols, column i % Cols. */
  function Reshape(frame: seq<int>): (g: seq<seq<int>>)
    requires |frame| == Size
    ensures IsGrid(g)
    ensures forall i :: 0 <= i < Size ==> g[i / Cols][i % Cols] == frame[i]
  {
    var g := seq(Rows, r requires 0 <= r < Rows => frame[r * Cols .. r * Cols + Cols]);
    assert forall i :: 0 <= i < Size ==> i == (i / Cols) * Cols + i % Cols;
    g
  }

  /** The rows of a grid laid end to end. */
  function Flatten(g: seq<seq<int>>): (f: seq<int>)
    ensures (forall r :: 0 <= r < |g| ==> |g[r]| == Cols) ==> |f| == |g| * Cols
  {
    if g == [] then [] else g[0] + Flatten(g[1..])
  }

  lemma {:induction false} FlattenAt(g: seq<seq<int>>)
    requires forall r :: 0 <= r < |g| ==> |g[r]| == Cols
    ensures |Flatten(g)| == |g| * Cols
    ensures forall r, c :: 0 <= r < |g| && 0 <= c < Cols ==> Flatten(g)[r * Cols + c] == g[r][c]
  {
    if g != [] {
      FlattenAt(g[1..]);
      forall r, c | 0 <= r < |g| && 0 <= c < Cols
        ensures Flatten(g)[r * Cols + c] == g[r][c]
      {
        if r > 0 {
          assert r * Cols + c == Cols + ((r - 1) * Cols + c);
        }
      }
    }
  }

  /** Flattening the grid row by row gives back the frame. */
  lemma FlattenReshape(frame: seq<int>)
    requires |frame| == Size
    ensures Flatten(Reshape(frame)) == frame
  {
    var g := Reshape(frame);
    FlattenAt(g);
    forall i | 0 <= i < Size
      ensures Flatten(g)[i] == frame[i]
    {
      assert i == (i / Cols) * Cols + i % Cols;
    }
  }

  /** Reshaping the flattened grid gives back the grid. */
  lemma ReshapeFlatten(g: seq<seq<int>>)
    requires IsGrid(g)
    ensures Reshape(Flatten(g)) == g
  {
    FlattenAt(g);
    var h := Reshape(Flatten(g));
    forall r | 0 <= r < Rows
      ensures h[r] == g[r]
    {
      forall c | 0 <= c < Cols
        ensures h[r][c] == g[r][c]
      {
        var i := r * Cols + c;
        assert i / Cols == r && i % Cols == c;
      }
    }
  }
}
