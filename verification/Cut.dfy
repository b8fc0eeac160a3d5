/** Choosing where to cut the working buffer so that no finding is split. */
module Cut {
  import opened Findings
  import opened Mask

  predicate Straddles(f: Finding, b: int) {
    f.start < b < f.end
  }

  /** One pass over the findings in list order, lowering the boundary to each straddler's start. */
  function PullBack(fs: seq<Finding>, b: int): int {
    if fs == [] then b
    else PullBack(fs[1..], if Straddles(fs[0], b) then fs[0].start else b)
  }

  lemma PullBackNext(fs: seq<Finding>, i: nat, b: int)
    requires i < |fs|
    ensures PullBack(fs[i..], b) == PullBack(fs[i + 1..], if Straddles(fs[i], b) then fs[i].start else b)
  {
    assert fs[i..][1..] == fs[i + 1..];
  }

  lemma PullBackEnd(fs: seq<Finding>, b: int)
    ensures PullBack(fs[|fs|..], b) == b
  {
  }

  ghost predicate Safe(fs: seq<Finding>, c: int) {
    forall i :: 0 <= i < |fs| ==> !Straddles(fs[i], c)
  }

  /** No finding is listed before one that starts inside it and ends beyond it. Findings starting at
      or after `b` never matter to a boundary that starts at `b`. */
  ghost predicate NoOrderedCrossing(fs: seq<Finding>, b: int) {
    forall i, j :: 0 <= i < j < |fs| && fs[j].start < b ==> !CrossesLater(fs[i], fs[j])
  }

  predicate CrossesLater(f: Finding, g: Finding) {
    f.start < g.start < f.end < g.end
  }

  ghost predicate Disjoint(fs: seq<Finding>) {
    forall i, j :: 0 <= i < j < |fs| ==> fs[i].Span() == fs[j].Span() || !SharesByte(fs[i].Span(), fs[j].Span())
  }

  ghost predicate NonIncreasingStart(fs: seq<Finding>) {
    forall i, j :: 0 <= i < j < |fs| ==> fs[i].start >= fs[j].start
  }

  lemma TidyListsHaveNoOrderedCrossing(fs: seq<Finding>, b: int)
    requires Disjoint(fs) || NonIncreasingStart(fs)
    ensures NoOrderedCrossing(fs, b)
  {
    forall i, j | 0 <= i < j < |fs| && fs[j].start < b
      ensures !CrossesLater(fs[i], fs[j])
    {
      assert Disjoint(fs) ==> fs[i].Span() == fs[j].Span() || !SharesByte(fs[i].Span(), fs[j].Span());
    }
  }

  /** The pass lowers the boundary to itself or to the start of a finding, and never below a cut that
      is safe for every finding. */
  lemma {:induction false} PullBackBounds(fs: seq<Finding>, b: int, safe: int)
    requires Safe(fs, safe) && safe <= b
    ensures safe <= PullBack(fs, b) <= b
    ensures PullBack(fs, b) == b || exists f :: f in fs && f.start == PullBack(fs, b)
  {
    if fs != [] {
      var b' := if Straddles(fs[0], b) then fs[0].start else b;
      assert !Straddles(fs[0], safe);
      assert forall i :: 0 <= i < |fs[1..]| ==> fs[1..][i] == fs[i + 1];
      PullBackBounds(fs[1..], b', safe);
      assert PullBack(fs, b) == PullBack(fs[1..], b');
      if PullBack(fs, b) != b && PullBack(fs, b) != b' {
        var f :| f in fs[1..] && f.start == PullBack(fs, b);
        assert f in fs;
      } else if PullBack(fs, b) != b {
        assert fs[0] in fs;
      }
    }
  }

  /** Without ordered crossings the pass ends on a cut that splits no finding. */
  lemma {:induction false} PullBackSafe(done: seq<Finding>, fs: seq<Finding>, b0: int, b: int)
    requires NoOrderedCrossing(done + fs, b0) && b <= b0
    requires Safe(done, b)
    ensures Safe(done + fs, PullBack(fs, b))
    decreases |fs|
  {
    if fs == [] {
      assert done + fs == done;
    } else {
      var f := fs[0];
      var b' := if Straddles(f, b) then f.start else b;
      var done' := done + [f];
      assert done' + fs[1..] == done + fs;
      forall i | 0 <= i < |done'|
        ensures !Straddles(done'[i], b')
      {
        if i < |done| {
          assert !Straddles(done[i], b);
          assert (done + fs)[i] == done[i] && (done + fs)[|done|] == f;
          assert Straddles(f, b) ==> !CrossesLater(done[i], f);
        }
      }
      PullBackSafe(done', fs[1..], b0, b');
    }
  }

  /** Without ordered crossings the pass finds the largest cut, up to `b`, that splits no finding. */
  lemma PullBackIsLargestSafeCut(fs: seq<Finding>, b: int)
    requires NoOrderedCrossing(fs, b)
    ensures Safe(fs, PullBack(fs, b)) && PullBack(fs, b) <= b
    ensures forall c :: Safe(fs, c) && c <= b ==> c <= PullBack(fs, b)
  {
    assert [] + fs == fs;
    PullBackSafe([], fs, b, b);
    PullBackAtMost(fs, b);
    forall c | Safe(fs, c) && c <= b
      ensures c <= PullBack(fs, b)
    {
      PullBackBounds(fs, b, c);
    }
  }

  lemma {:induction false} PullBackAtMost(fs: seq<Finding>, b: int)
    ensures PullBack(fs, b) <= b
  {
    if fs != [] {
      PullBackAtMost(fs[1..], if Straddles(fs[0], b) then fs[0].start else b);
    }
  }

  /** For two findings the order condition is exact: every boundary is cut safely iff they do not
      cross in list order. */
  lemma OrderConditionIsExactForPairs(f: Finding, g: Finding)
    ensures (forall b :: Safe([f, g], PullBack([f, g], b))) <==> !CrossesLater(f, g)
  {
    assert [f, g][1..] == [g] && [g][1..] == [];
    if CrossesLater(f, g) {
      var b := f.end;
      assert PullBack([f, g], b) == PullBack([g], b) == PullBack([], g.start) == g.start;
      assert Straddles([f, g][0], g.start);
      assert !Safe([f, g], PullBack([f, g], b));
    } else {
      forall b
        ensures Safe([f, g], PullBack([f, g], b))
      {
        PullBackIsLargestSafeCut([f, g], b);
      }
    }
  }

  /** A single pass is not enough in general: `[0,10)` then `[8,20)` from boundary 15 ends at 8. */
  lemma SinglePassCanSplit()
    ensures var fs := [At(0, 10), At(8, 20)]; PullBack(fs, 15) == 8 && !Safe(fs, 8)
  {
    var fs := [At(0, 10), At(8, 20)];
    assert fs[1..] == [At(8, 20)] && fs[1..][1..] == [];
    assert Straddles(fs[0], 8);
  }

  /** In every case, the cut is safe exactly when a second pass would leave it where it is. */
  lemma SafeIffSecondPassIsIdle(fs: seq<Finding>, b: int)
    ensures Safe(fs, PullBack(fs, b)) <==> PullBack(fs, PullBack(fs, b)) == PullBack(fs, b)
  {
    PullBackIdle(fs, PullBack(fs, b));
  }

  lemma {:induction false} PullBackIdle(fs: seq<Finding>, c: int)
    ensures Safe(fs, c) <==> PullBack(fs, c) == c
  {
    if fs != [] {
      assert fs == [fs[0]] + fs[1..];
      if Straddles(fs[0], c) {
        PullBackAtMost(fs[1..], fs[0].start);
      } else {
        PullBackIdle(fs[1..], c);
        assert Safe(fs, c) <==> Safe(fs[1..], c) by {
          assert forall i :: 0 <= i < |fs[1..]| ==> fs[1..][i] == fs[i + 1];
          if Safe(fs[1..], c) {
            forall i | 0 <= i < |fs| ensures !Straddles(fs[i], c) {
              if i > 0 { assert fs[i] == fs[1..][i - 1]; }
            }
          }
        }
      }
    }
  }

  // ----- Which findings can be split ------------------------------------------------------------------

  /** Finding `m` lowers the boundary when its turn comes. */
  ghost predicate Lowers(fs: seq<Finding>, b: int, m: int) {
    0 <= m < |fs| && Straddles(fs[m], PullBack(fs[..m], b))
  }

  ghost predicate LastToLower(fs: seq<Finding>, b: int, m: int) {
    Lowers(fs, b, m) && forall i :: m < i < |fs| ==> !Lowers(fs, b, i)
  }

  lemma {:induction false} PullBackSnoc(fs: seq<Finding>, f: Finding, b: int)
    ensures PullBack(fs + [f], b) == var c := PullBack(fs, b); if Straddles(f, c) then f.start else c
  {
    if fs == [] {
      assert [] + [f] == [f] && [f][1..] == [];
    } else {
      assert (fs + [f])[1..] == fs[1..] + [f];
      PullBackSnoc(fs[1..], f, if Straddles(fs[0], b) then fs[0].start else b);
    }
  }

  /** Without a finding that lowers it, the boundary stays. */
  lemma {:induction false} BoundaryStays(fs: seq<Finding>, b: int, m: nat, n: nat)
    requires m <= n <= |fs| && forall i :: m <= i < n ==> !Lowers(fs, b, i)
    ensures PullBack(fs[..n], b) == PullBack(fs[..m], b)
    decreases n
  {
    if m < n {
      BoundaryStays(fs, b, m, n - 1);
      assert fs[..n] == fs[..n - 1] + [fs[n - 1]] && !Lowers(fs, b, n - 1);
      PullBackSnoc(fs[..n - 1], fs[n - 1], b);
    }
  }

  /** The pass ends at the start of the last finding that lowered the boundary, and of all findings only
      those listed before that one can be split there. */
  lemma LastToLowerDecides(fs: seq<Finding>, b: int, m: int)
    requires LastToLower(fs, b, m)
    ensures PullBack(fs, b) == fs[m].start
    ensures !Safe(fs, PullBack(fs, b)) <==> exists i :: 0 <= i < m && Straddles(fs[i], fs[m].start)
  {
    assert fs[..m + 1] == fs[..m] + [fs[m]] && fs[..|fs|] == fs;
    PullBackSnoc(fs[..m], fs[m], b);
    BoundaryStays(fs, b, m + 1, |fs|);
    forall i | m < i < |fs|
      ensures !Straddles(fs[i], fs[m].start)
    {
      BoundaryStays(fs, b, m + 1, i);
      assert !Lowers(fs, b, i);
    }
  }

  /** In every case, the cut splits a finding exactly when one listed before the last to lower the
      boundary straddles that one's start. */
  lemma SplitsIffEarlierStraddles(fs: seq<Finding>, b: int)
    ensures !Safe(fs, PullBack(fs, b)) <==>
            exists i, m :: 0 <= i < m && LastToLower(fs, b, m) && Straddles(fs[i], fs[m].start)
  {
    hide PullBack, Straddles;
    var m := FindLastToLower(fs, b, |fs|);
    if m < 0 {
      assert fs[..|fs|] == fs && fs[..0] == [];
      BoundaryStays(fs, b, 0, |fs|);
      forall i | 0 <= i < |fs|
        ensures !Straddles(fs[i], PullBack(fs, b))
      {
        BoundaryStays(fs, b, 0, i);
        assert !Lowers(fs, b, i);
      }
    } else {
      LastToLowerDecides(fs, b, m);
      assert forall k :: LastToLower(fs, b, k) ==> k == m;
    }
  }

  lemma {:induction false} FindLastToLower(fs: seq<Finding>, b: int, n: nat) returns (m: int)
    requires n <= |fs| && forall i :: n <= i < |fs| ==> !Lowers(fs, b, i)
    ensures m < 0 ==> forall i :: 0 <= i < |fs| ==> !Lowers(fs, b, i)
    ensures m >= 0 ==> LastToLower(fs, b, m)
  {
    if n == 0 {
      m := -1;
    } else if Lowers(fs, b, n - 1) {
      m := n - 1;
    } else {
      m := FindLastToLower(fs, b, n - 1);
    }
  }

  /** From three findings on the order condition is not necessary: a crossing in list order does no harm
      when an earlier finding has taken the boundary below it. */
  lemma HarmlessOrderedCrossing()
    ensures var fs := [At(0, 100), At(0, 10), At(8, 20)];
            !NoOrderedCrossing(fs, 15) && forall b :: Safe(fs, PullBack(fs, b))
  {
    var fs := [At(0, 100), At(0, 10), At(8, 20)];
    assert CrossesLater(fs[1], fs[2]);
    forall b
      ensures Safe(fs, PullBack(fs, b))
    {
      PullBackIdle(fs[1..], 0);
      PullBackIdle(fs, b);
    }
  }
}
