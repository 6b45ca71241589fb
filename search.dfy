/**
  The shapes of the planner's loops over a timeline read from the newest
  element on: a search (does some element satisfy a test?), a search whose
  test may also panic, and a scan that, element by element, passes over it,
  stops, panics, or emits an item.
 */
module Search {
  import opened Wrappers

  /** Some element satisfies `p`, found from the first element on. */
  predicate SomeMatch<T>(xs: seq<T>, p: T -> bool)
    decreases |xs|
  {
    xs != [] && (p(xs[0]) || SomeMatch(xs[1..], p))
  }

  /** The search answers yes exactly when some element satisfies the test. */
  lemma SomeMatchExists<T>(xs: seq<T>, p: T -> bool)
    ensures SomeMatch(xs, p) <==> exists j :: 0 <= j < |xs| && p(xs[j])
  {
    if SomeMatch(xs, p) {
      var j := SomeMatchFound(xs, p);
    }
    forall j | 0 <= j < |xs| && p(xs[j]) ensures SomeMatch(xs, p) {
      SomeMatchMissing(xs, p, j);
    }
  }

  /** A yes comes with an element that satisfies the test. */
  lemma {:induction false} SomeMatchFound<T>(xs: seq<T>, p: T -> bool) returns (j: nat)
    requires SomeMatch(xs, p)
    ensures j < |xs| && p(xs[j])
    decreases |xs|
  {
    if p(xs[0]) {
      j := 0;
    } else {
      var i := SomeMatchFound(xs[1..], p);
      assert xs[i + 1] == xs[1..][i];
      j := i + 1;
    }
  }

  /** The search misses no element that satisfies the test. */
  lemma {:induction false} SomeMatchMissing<T>(xs: seq<T>, p: T -> bool, j: nat)
    requires j < |xs| && p(xs[j])
    ensures SomeMatch(xs, p)
    decreases |xs|
  {
    if j > 0 {
      assert xs[j] == xs[1..][j - 1];
      SomeMatchMissing(xs[1..], p, j - 1);
    }
  }

  /** The search over a sequence is the search over any split of it. */
  lemma {:induction false} SomeMatchAppend<T>(xs: seq<T>, ys: seq<T>, p: T -> bool)
    ensures SomeMatch(xs + ys, p) == (SomeMatch(xs, p) || SomeMatch(ys, p))
    decreases |xs|
  {
    if xs != [] {
      assert (xs + ys)[0] == xs[0] && (xs + ys)[1..] == xs[1..] + ys;
      SomeMatchAppend(xs[1..], ys, p);
    } else {
      assert xs + ys == ys;
    }
  }

  // ---------------------------------------------------------------------
  // A search whose test may panic
  // ---------------------------------------------------------------------

  /** The answer of a test that may panic instead of answering. */
  datatype Answer = Yes | No | Panics

  /** The first answer other than `No`, from the first element on: the
      search ends at a yes or at a panic, and answers no when it runs out. */
  function FirstAnswer<T>(xs: seq<T>, test: T -> Answer): Answer
    decreases |xs|
  {
    if xs == [] then No
    else if !test(xs[0]).No? then test(xs[0])
    else FirstAnswer(xs[1..], test)
  }

  /** Every element before `k` answers no. */
  predicate NoBefore<T>(xs: seq<T>, k: int, test: T -> Answer)
    requires k <= |xs|
  {
    forall j :: 0 <= j < k ==> test(xs[j]).No?
  }

  /** The search gives a yes or a panic exactly when some element gives it
      and every element before it answers no; otherwise every element
      answers no. */
  lemma {:induction false} FirstAnswerAt<T>(xs: seq<T>, test: T -> Answer, a: Answer)
    requires !a.No?
    ensures FirstAnswer(xs, test) == a <==> exists k :: 0 <= k < |xs| && test(xs[k]) == a && NoBefore(xs, k, test)
    ensures FirstAnswer(xs, test).No? <==> NoBefore(xs, |xs|, test)
    decreases |xs|
  {
    if xs != [] {
      FirstAnswerAt(xs[1..], test, a);
      forall k | 0 < k <= |xs| ensures NoBefore(xs, k, test) <==> test(xs[0]).No? && NoBefore(xs[1..], k - 1, test) {
        if NoBefore(xs, k, test) {
          forall j | 0 <= j < k - 1 ensures test(xs[1..][j]).No? {
            assert xs[1..][j] == xs[j + 1];
          }
        }
        if test(xs[0]).No? && NoBefore(xs[1..], k - 1, test) {
          forall j | 0 < j < k ensures test(xs[j]).No? {
            assert xs[j] == xs[1..][j - 1];
          }
        }
      }
      if FirstAnswer(xs, test) == a && !test(xs[0]).No? {
        assert test(xs[0]) == a && NoBefore(xs, 0, test);
      }
      if FirstAnswer(xs, test) == a && test(xs[0]).No? {
        var i :| 0 <= i < |xs[1..]| && test(xs[1..][i]) == a && NoBefore(xs[1..], i, test);
        assert test(xs[i + 1]) == a && NoBefore(xs, i + 1, test);
      }
      if exists k :: 0 <= k < |xs| && test(xs[k]) == a && NoBefore(xs, k, test) {
        var k :| 0 <= k < |xs| && test(xs[k]) == a && NoBefore(xs, k, test);
        if k > 0 {
          assert test(xs[1..][k - 1]) == a;
        }
      }
    }
  }

  // ---------------------------------------------------------------------
  // The scan
  // ---------------------------------------------------------------------

  /** What a scan does with one element. */
  datatype Verdict<X> = Pass | Stop | Crash | Emit(item: X)

  /** A verdict that ends the scan: a stop or a panic. */
  predicate Ends<X>(v: Verdict<X>) {
    v.Stop? || v.Crash?
  }

  /** The items a verdict adds to the output. */
  function Emitted<X>(v: Verdict<X>): seq<X> {
    if v.Emit? then [v.item] else []
  }

  /** The items emitted, in order, up to the first element whose verdict
      ends the scan. */
  function Scan<T, X>(xs: seq<T>, verdict: T -> Verdict<X>): (r: seq<X>)
    ensures |r| <= |xs|
    decreases |xs|
  {
    if xs == [] then []
    else if Ends(verdict(xs[0])) then []
    else Emitted(verdict(xs[0])) + Scan(xs[1..], verdict)
  }

  /** The scan ends in a panic: the first element whose verdict ends it
      panics. */
  predicate Crashes<T, X>(xs: seq<T>, verdict: T -> Verdict<X>)
    decreases |xs|
  {
    xs != [] && (verdict(xs[0]).Crash? || (!verdict(xs[0]).Stop? && Crashes(xs[1..], verdict)))
  }

  /** No element before `k` ends the scan. */
  predicate NoEndBefore<T, X>(xs: seq<T>, k: int, verdict: T -> Verdict<X>)
    requires k <= |xs|
  {
    forall j :: 0 <= j < k ==> !Ends(verdict(xs[j]))
  }

  /** One turn of a scan from position `i`. */
  lemma ScanStep<T, X>(xs: seq<T>, i: nat, verdict: T -> Verdict<X>)
    requires i < |xs|
    ensures Ends(verdict(xs[i])) ==> Scan(xs[i..], verdict) == []
    ensures !Ends(verdict(xs[i])) ==>
              Scan(xs[i..], verdict) == Emitted(verdict(xs[i])) + Scan(xs[i + 1..], verdict)
    ensures Crashes(xs[i..], verdict)
            == (verdict(xs[i]).Crash? || (!verdict(xs[i]).Stop? && Crashes(xs[i + 1..], verdict)))
  {
    assert xs[i..][0] == xs[i] && xs[i..][1..] == xs[i + 1..];
  }

  /** One turn of a loop that appends a scan's items to `before`, from
      position `i`, towards `whole`: a stop or a panic leaves `before` as
      the whole; otherwise the turn's item goes next. Whether the scan
      panics is decided by this turn or by the turns after it. */
  lemma ScanLoopStep<T, X>(whole: seq<X>, before: seq<X>, xs: seq<T>, i: nat, verdict: T -> Verdict<X>)
    requires i < |xs| && whole == before + Scan(xs[i..], verdict)
    ensures Ends(verdict(xs[i])) ==> whole == before
    ensures !Ends(verdict(xs[i])) ==> whole == before + Emitted(verdict(xs[i])) + Scan(xs[i + 1..], verdict)
    ensures Crashes(xs[i..], verdict)
            == (verdict(xs[i]).Crash? || (!verdict(xs[i]).Stop? && Crashes(xs[i + 1..], verdict)))
  {
    ScanStep(xs, i, verdict);
    if Ends(verdict(xs[i])) {
      assert before + [] == before;
    } else {
      Concat3(before, Emitted(verdict(xs[i])), Scan(xs[i + 1..], verdict));
    }
  }

  /** A scan over `a + b` is the scan over `a` followed by the scan over `b`
      when nothing in `a` ends it, and it panics when the scan over `b`
      does. */
  lemma {:induction false} ScanAppend<T, X>(a: seq<T>, b: seq<T>, verdict: T -> Verdict<X>)
    requires NoEndBefore(a, |a|, verdict)
    ensures Scan(a + b, verdict) == Scan(a, verdict) + Scan(b, verdict)
    ensures Crashes(a + b, verdict) == Crashes(b, verdict)
    decreases |a|
  {
    if a == [] {
      assert a + b == b;
    } else {
      assert (a + b)[0] == a[0] && (a + b)[1..] == a[1..] + b;
      assert NoEndBefore(a[1..], |a[1..]|, verdict) by {
        forall j | 0 <= j < |a[1..]| ensures !Ends(verdict(a[1..][j])) {
          assert a[1..][j] == a[j + 1];
        }
      }
      ScanAppend(a[1..], b, verdict);
    }
  }

  /** Nothing after an element that ends the scan matters: the scan is the
      scan of the elements before it, and after a stop it panics only if
      the elements before it make it panic. */
  lemma {:induction false} ScanHorizon<T, X>(xs: seq<T>, k: nat, verdict: T -> Verdict<X>)
    requires k < |xs| && Ends(verdict(xs[k]))
    ensures Scan(xs, verdict) == Scan(xs[..k], verdict)
    ensures verdict(xs[k]).Stop? ==> Crashes(xs, verdict) == Crashes(xs[..k], verdict)
    decreases k
  {
    if k > 0 {
      assert xs[..k][0] == xs[0] && xs[..k][1..] == xs[1..][..k - 1];
      assert xs[1..][k - 1] == xs[k];
      ScanHorizon(xs[1..], k - 1, verdict);
    }
  }

  /** The scan panics exactly when some element panics and no element
      before it ends the scan. */
  lemma {:induction false} CrashesAt<T, X>(xs: seq<T>, verdict: T -> Verdict<X>)
    ensures Crashes(xs, verdict) <==> exists k :: 0 <= k < |xs| && verdict(xs[k]).Crash? && NoEndBefore(xs, k, verdict)
    decreases |xs|
  {
    if xs != [] {
      CrashesAt(xs[1..], verdict);
      if Crashes(xs, verdict) && !verdict(xs[0]).Crash? {
        var i :| 0 <= i < |xs[1..]| && verdict(xs[1..][i]).Crash? && NoEndBefore(xs[1..], i, verdict);
        forall j | 0 <= j < i + 1 ensures !Ends(verdict(xs[j])) {
          if j > 0 {
            assert xs[j] == xs[1..][j - 1];
          }
        }
        assert verdict(xs[i + 1]).Crash?;
      }
      if exists k :: 0 <= k < |xs| && verdict(xs[k]).Crash? && NoEndBefore(xs, k, verdict) {
        var k :| 0 <= k < |xs| && verdict(xs[k]).Crash? && NoEndBefore(xs, k, verdict);
        if k > 0 {
          forall j | 0 <= j < k - 1 ensures !Ends(verdict(xs[1..][j])) {
            assert xs[1..][j] == xs[j + 1];
          }
          assert verdict(xs[1..][k - 1]).Crash?;
        }
      }
    }
  }

  /** Every item of a scan is emitted by some element that no earlier
      element ends the scan before. */
  lemma {:induction false} ScanSound<T, X>(xs: seq<T>, verdict: T -> Verdict<X>, x: X) returns (k: nat)
    requires x in Scan(xs, verdict)
    ensures k < |xs| && verdict(xs[k]) == Emit(x) && NoEndBefore(xs, k, verdict)
    decreases |xs|
  {
    if verdict(xs[0]) == Emit(x) {
      k := 0;
    } else {
      var i := ScanSound(xs[1..], verdict, x);
      k := i + 1;
      assert xs[k] == xs[1..][i];
      forall j | 0 <= j < k ensures !Ends(verdict(xs[j])) {
        if j > 0 {
          assert xs[j] == xs[1..][j - 1];
        }
      }
    }
  }

  /** Every element that emits an item, with no element before it ending
      the scan, has its item in the scan, after those of the elements
      before it. */
  lemma ScanComplete<T, X>(xs: seq<T>, k: nat, verdict: T -> Verdict<X>)
    requires k < |xs| && verdict(xs[k]).Emit? && NoEndBefore(xs, k, verdict)
    ensures Scan(xs, verdict) == Scan(xs[..k], verdict) + [verdict(xs[k]).item] + Scan(xs[k + 1..], verdict)
  {
    ScanSplit(xs, k, verdict);
    ScanStep(xs, k, verdict);
    assert Emitted(verdict(xs[k])) == [verdict(xs[k]).item];
  }

  /** A walk with no end before `k` is the walk of the first `k` elements
      followed by the walk of the rest. */
  lemma ScanSplit<T, X>(xs: seq<T>, k: nat, verdict: T -> Verdict<X>)
    requires k <= |xs| && NoEndBefore(xs, k, verdict)
    ensures Scan(xs, verdict) == Scan(xs[..k], verdict) + Scan(xs[k..], verdict)
  {
    assert xs == xs[..k] + xs[k..];
    assert NoEndBefore(xs[..k], k, verdict) by {
      forall j | 0 <= j < k ensures !Ends(verdict(xs[..k][j])) {
        assert xs[..k][j] == xs[j];
      }
    }
    ScanAppend(xs[..k], xs[k..], verdict);
  }

  /** A scan in which every element passes emits nothing and does not
      panic. */
  lemma {:induction false} ScanAllPass<T, X>(xs: seq<T>, verdict: T -> Verdict<X>)
    requires forall j :: 0 <= j < |xs| ==> verdict(xs[j]).Pass?
    ensures Scan(xs, verdict) == [] && !Crashes(xs, verdict)
    decreases |xs|
  {
    if xs != [] {
      assert forall j :: 0 <= j < |xs[1..]| ==> xs[1..][j] == xs[j + 1];
      ScanAllPass(xs[1..], verdict);
    }
  }

  /** Scans whose verdicts agree on every element agree. */
  lemma {:induction false} ScanSameVerdicts<T, X>(xs: seq<T>, v: T -> Verdict<X>, w: T -> Verdict<X>)
    requires forall j :: 0 <= j < |xs| ==> v(xs[j]) == w(xs[j])
    ensures Scan(xs, v) == Scan(xs, w) && Crashes(xs, v) == Crashes(xs, w)
    decreases |xs|
  {
    if xs != [] {
      assert forall j :: 0 <= j < |xs[1..]| ==> xs[1..][j] == xs[j + 1];
      ScanSameVerdicts(xs[1..], v, w);
    }
  }
}
