/** The "3-1-6 rule": keep the better half of the funds by 3-year return,
    of those the better half by 1-year return, of those the better half by
    6-month return. Each stage is `sort_values(...).nlargest(n, column)`. */
module Screening {
  import opened Funds

  /** Non-increasing in the return over `h`: the output order of `nlargest`. */
  ghost predicate Descending(s: seq<FundRow>, h: Horizon) {
    forall i, j :: 0 <= i < j < |s| ==> Return(s[i], h) >= Return(s[j], h)
  }

  /** Every row of `kept` ranks at least as high over `h` as every row of `dropped`. */
  ghost predicate Dominates(kept: multiset<FundRow>, dropped: multiset<FundRow>, h: Horizon) {
    forall x, y :: x in kept && y in dropped ==> Return(x, h) >= Return(y, h)
  }

  /** Insert `x` into a descending sequence. */
  function Insert(x: FundRow, s: seq<FundRow>, h: Horizon): (r: seq<FundRow>)
    requires Descending(s, h)
    ensures Descending(r, h)
    ensures multiset(r) == multiset(s) + multiset{x}
  {
    if s == [] || Return(s[0], h) <= Return(x, h) then
      HeadBounds(x, s, h);
      DescendingCons(x, s, h);
      [x] + s
    else
      DescendingTail(s, h);
      var t := Insert(x, s[1..], h);
      assert s == [s[0]] + s[1..];
      BoundsAll(s[0], t, s[1..], x, h);
      DescendingCons(s[0], t, h);
      [s[0]] + t
  }

  /** A descending sequence stays descending without its first row, and its
      first row ranks at least as high as all of the rest. */
  lemma DescendingTail(s: seq<FundRow>, h: Horizon)
    requires Descending(s, h) && s != []
    ensures Descending(s[1..], h)
    ensures forall k :: 0 <= k < |s[1..]| ==> Return(s[0], h) >= Return(s[1..][k], h)
  {
  }

  /** A row ranking at least as high as the first row of a descending
      sequence ranks at least as high as all of it. */
  lemma HeadBounds(x: FundRow, s: seq<FundRow>, h: Horizon)
    requires Descending(s, h) && (s == [] || Return(s[0], h) <= Return(x, h))
    ensures forall k :: 0 <= k < |s| ==> Return(x, h) >= Return(s[k], h)
  {
  }

  /** A row ranking at least as high as every row of `s` and as `x` ranks at
      least as high as every row of a rearrangement of `s` plus `x`. */
  lemma BoundsAll(y: FundRow, t: seq<FundRow>, s: seq<FundRow>, x: FundRow, h: Horizon)
    requires multiset(t) == multiset(s) + multiset{x}
    requires forall k :: 0 <= k < |s| ==> Return(y, h) >= Return(s[k], h)
    requires Return(y, h) >= Return(x, h)
    ensures forall k :: 0 <= k < |t| ==> Return(y, h) >= Return(t[k], h)
  {
    forall k | 0 <= k < |t| ensures Return(y, h) >= Return(t[k], h) {
      assert t[k] in multiset(t);
      if t[k] != x {
        assert t[k] in multiset(s);
      }
    }
  }

  /** Putting a row that ranks highest in front keeps a sequence descending. */
  lemma DescendingCons(y: FundRow, t: seq<FundRow>, h: Horizon)
    requires Descending(t, h)
    requires forall k :: 0 <= k < |t| ==> Return(y, h) >= Return(t[k], h)
    ensures Descending([y] + t, h)
  {
    forall i, j | 0 <= i < j < |t| + 1 ensures Return(([y] + t)[i], h) >= Return(([y] + t)[j], h) {
      if i > 0 {
        assert ([y] + t)[i] == t[i - 1];
      }
      assert ([y] + t)[j] == t[j - 1];
    }
  }

  /** The rows of `s` in non-increasing order of the return over `h`: the
      order in which `nlargest` ranks and returns them. `nlargest` breaks
      ties by position, so the ascending `sort_values` before it decides
      which equal-return rows survive a cut and how equal-return survivors
      are listed; that sort is unstable, so neither is fixed, and this is
      one admissible order. */
  function SortDescending(s: seq<FundRow>, h: Horizon): (r: seq<FundRow>)
    ensures Descending(r, h)
    ensures multiset(r) == multiset(s)
  {
    if s == [] then []
    else
      assert s == [s[0]] + s[1..];
      Insert(s[0], SortDescending(s[1..], h), h)
  }

  /** In a descending sequence, the first `n` rows dominate the rest. */
  lemma DescendingPrefixDominates(s: seq<FundRow>, n: nat, h: Horizon)
    requires Descending(s, h) && n <= |s|
    ensures Dominates(multiset(s[..n]), multiset(s[n..]), h)
  {
    forall x, y | x in multiset(s[..n]) && y in multiset(s[n..])
      ensures Return(x, h) >= Return(y, h)
    {
      var i :| 0 <= i < n && s[..n][i] == x;
      var j :| 0 <= j < |s| - n && s[n..][j] == y;
      assert s[i] == x && s[n + j] == y;
    }
  }

  /** Splitting a sequence splits its multiset. */
  lemma SplitMultiset(s: seq<FundRow>, n: nat)
    requires n <= |s|
    ensures multiset(s) - multiset(s[..n]) == multiset(s[n..])
    ensures multiset(s[..n]) <= multiset(s)
  {
    assert s == s[..n] + s[n..];
  }

  /** One stage: `df.nlargest(int(len(df) / 2), column)`. */
  function TopHalf(rows: seq<FundRow>, h: Horizon): (r: seq<FundRow>)
    ensures |r| == |rows| / 2
    ensures Descending(r, h)
  {
    var sorted := SortDescending(rows, h);
    assert |sorted| == |multiset(sorted)| == |multiset(rows)| == |rows|;
    sorted[..|rows| / 2]
  }

  /** A stage keeps rows of its input only, and every row it keeps ranks at
      least as high over `h` as every row it drops. */
  lemma TopHalfSelects(rows: seq<FundRow>, h: Horizon)
    ensures multiset(TopHalf(rows, h)) <= multiset(rows)
    ensures Dominates(multiset(TopHalf(rows, h)), multiset(rows) - multiset(TopHalf(rows, h)), h)
  {
    var sorted := SortDescending(rows, h);
    var n := |rows| / 2;
    assert |sorted| == |multiset(sorted)| == |multiset(rows)| == |rows|;
    SplitMultiset(sorted, n);
    DescendingPrefixDominates(sorted, n, h);
  }

  /** The whole rule, as lines 95-97 chain the three stages. */
  function Screen(rows: seq<FundRow>): (r: seq<FundRow>)
    ensures |r| == |rows| / 2 / 2 / 2
    ensures multiset(r) <= multiset(rows)
    ensures Descending(r, SixMonths)
    ensures |rows| < 8 ==> r == []
  {
    var a := TopHalf(rows, ThreeYears);
    var b := TopHalf(a, OneYear);
    TopHalfSelects(rows, ThreeYears);
    TopHalfSelects(a, OneYear);
    TopHalfSelects(b, SixMonths);
    TopHalf(b, SixMonths)
  }

  /** Rows already in strictly decreasing order over `h` are left as they are. */
  lemma {:induction false} SortKeepsStrictlyDescending(s: seq<FundRow>, h: Horizon)
    requires forall i :: 0 <= i < |s| - 1 ==> Return(s[i], h) > Return(s[i + 1], h)
    ensures SortDescending(s, h) == s
  {
    if s != [] {
      SortKeepsStrictlyDescending(s[1..], h);
      assert s == [s[0]] + s[1..];
    }
  }

  lemma InsertBelowOne(x: FundRow, y: FundRow, h: Horizon)
    requires Return(y, h) > Return(x, h)
    ensures Insert(x, [y], h) == [y, x]
  {
    assert [y][1..] == [];
    assert Insert(x, [], h) == [x];
  }

  /** A stage over rows already strictly decreasing keeps their first half. */
  lemma {:induction false} TopHalfOfStrictlyDescending(s: seq<FundRow>, h: Horizon)
    requires forall i :: 0 <= i < |s| - 1 ==> Return(s[i], h) > Return(s[i + 1], h)
    ensures TopHalf(s, h) == s[..|s| / 2]
  {
    SortKeepsStrictlyDescending(s, h);
  }

  /** Of two rows, the one with the larger return over `h` survives a stage. */
  lemma {:induction false} TopHalfOfTwo(x: FundRow, y: FundRow, h: Horizon)
    requires Return(y, h) > Return(x, h)
    ensures TopHalf([x, y], h) == [y]
  {
    assert [x, y][1..] == [y];
    assert SortDescending([y], h) == [y] by {
      assert [y][1..] == [];
    }
    InsertBelowOne(x, y, h);
    assert SortDescending([x, y], h) == [y, x];
  }

  /** Four funds with 3-year returns 10, 8, 6, 4: the first stage keeps the
      first two; of those, with 1-year returns 5 and 9, the second stage
      keeps the one with 9; the third stage keeps `floor(1/2) = 0` rows,
      so the reply is empty. */
  lemma {:induction false} FourFundScenario(rows: seq<FundRow>)
    requires |rows| == 4
    requires rows[0].threeYears == 10 && rows[1].threeYears == 8
    requires rows[2].threeYears == 6 && rows[3].threeYears == 4
    requires rows[0].oneYear == 5 && rows[1].oneYear == 9
    ensures TopHalf(rows, ThreeYears) == rows[..2]
    ensures TopHalf(TopHalf(rows, ThreeYears), OneYear) == [rows[1]]
    ensures Screen(rows) == []
  {
    TopHalfOfStrictlyDescending(rows, ThreeYears);
    assert rows[..2] == [rows[0], rows[1]];
    TopHalfOfTwo(rows[0], rows[1], OneYear);
  }
}
