/**
 * Coverage exclusion, the second step of `GameStrategy.getFans`: the entries of
 * the coverage map are walked in iteration order, and whenever an entry's
 * covering fan type is still in the working set, all of its covered fan types
 * are removed from that set. The pass is destructive and sequential, so with
 * chains of coverage its result can depend on the order of the entries.
 */
module Coverage {
  import opened Strategy

  /** The working set after one entry has been processed. */
  function Step<F>(e: CoverageEntry<F>, working: set<F>): (r: set<F>)
    ensures r <= working
  {
    if e.covering in working then working - e.covered else working
  }

  /** The coverage pass over `entries`, in order, starting from `working`. */
  function ApplyCoverage<F>(entries: seq<CoverageEntry<F>>, working: set<F>): (r: set<F>)
    // the working set only shrinks
    ensures r <= working
    // soundness: a covering type that survives excludes everything it covers
    ensures Settled(entries, r)
    // nothing else is removed: a type disappears only when covered by an entry
    // whose covering type was in the initial set
    ensures forall f :: f in working && f !in r ==> Dominated(entries, working, f)
    decreases |entries|
  {
    if |entries| == 0 then working
    else
      var next := Step(entries[0], working);
      var r := ApplyCoverage(entries[1..], next);
      assert forall i :: 1 <= i < |entries| ==> entries[i] == entries[1..][i - 1];
      assert forall f :: f in working && f !in r ==> Dominated(entries, working, f) by {
        forall f | f in working && f !in r
          ensures Dominated(entries, working, f)
        {
          if f in next {
            var j :| 0 <= j < |entries[1..]| && entries[1..][j].covering in next && f in entries[1..][j].covered;
            assert entries[j + 1].covering in working && f in entries[j + 1].covered;
          } else {
            assert entries[0].covering in working && f in entries[0].covered;
          }
        }
      }
      r
  }

  /**
   * No entry whose covering type is in `w` covers anything in `w`: the
   * coverage rule has nothing left to remove from `w`.
   */
  predicate Settled<F>(entries: seq<CoverageEntry<F>>, w: set<F>)
  {
    forall i :: 0 <= i < |entries| && entries[i].covering in w ==> entries[i].covered !! w
  }

  /** Some entry whose covering type is in `w` lists `f` as covered. */
  predicate Dominated<F>(entries: seq<CoverageEntry<F>>, w: set<F>, f: F)
  {
    exists i :: 0 <= i < |entries| && entries[i].covering in w && f in entries[i].covered
  }

  /**
   * The coverage rule read as a plain set difference: remove from `w` every
   * type covered by a covering type present in `w`, all at once.
   */
  function SetDifferenceCoverage<F>(entries: seq<CoverageEntry<F>>, w: set<F>): (r: set<F>)
    ensures r <= w
  {
    set f | f in w && !Dominated(entries, w, f)
  }

  /** No covering type is itself covered by any entry (no chains of coverage). */
  predicate Flat<F>(entries: seq<CoverageEntry<F>>)
  {
    forall i, j :: 0 <= i < |entries| && 0 <= j < |entries| ==> entries[i].covering !in entries[j].covered
  }

  /**
   * The documented restriction on coverage: no two distinct fan types cover
   * each other. A fan type covering itself is not excluded.
   */
  predicate NoMutualCoverage<F>(entries: seq<CoverageEntry<F>>)
  {
    forall i, j :: 0 <= i < |entries| && 0 <= j < |entries|
      && entries[i].covering != entries[j].covering && entries[j].covering in entries[i].covered
      ==> entries[i].covering !in entries[j].covered
  }

  /** A settled set is a fixed point of the coverage pass. */
  lemma SettledIsFixedPoint<F>(entries: seq<CoverageEntry<F>>, w: set<F>)
    requires Settled(entries, w)
    ensures ApplyCoverage(entries, w) == w
  {
  }

  /** Re-running the coverage pass on its own output changes nothing. */
  lemma CoverageIdempotent<F>(entries: seq<CoverageEntry<F>>, w: set<F>)
    ensures ApplyCoverage(entries, ApplyCoverage(entries, w)) == ApplyCoverage(entries, w)
  {
  }

  /** The pass is a left fold: walking `a + b` is walking `a`, then `b`. */
  lemma {:induction false} CoverageConcat<F>(a: seq<CoverageEntry<F>>, b: seq<CoverageEntry<F>>, w: set<F>)
    ensures ApplyCoverage(a + b, w) == ApplyCoverage(b, ApplyCoverage(a, w))
    decreases |a|
  {
    if |a| > 0 {
      assert (a + b)[0] == a[0];
      assert (a + b)[1..] == a[1..] + b;
      CoverageConcat(a[1..], b, Step(a[0], w));
    } else {
      assert a + b == b;
    }
  }

  /**
   * The sequential meaning of the pass: a fan type survives iff it was in the
   * initial set and, for every entry covering it, that entry's covering type
   * was gone from the working set by the time the entry was reached.
   */
  lemma {:induction false} ApplyCoverageSequential<F>(entries: seq<CoverageEntry<F>>, w: set<F>, f: F)
    ensures f in ApplyCoverage(entries, w) <==>
      f in w && forall i :: 0 <= i < |entries| && f in entries[i].covered ==>
        entries[i].covering !in ApplyCoverage(entries[..i], w)
    decreases |entries|
  {
    if |entries| > 0 {
      var n := |entries| - 1;
      var init := entries[..n];
      var e := entries[n];
      assert entries == init + [e];
      CoverageConcat(init, [e], w);
      var before := ApplyCoverage(init, w);
      assert ApplyCoverage([e], before) == ApplyCoverage([], Step(e, before));
      ApplyCoverageSequential(init, w, f);
      assert forall i :: 0 <= i < n ==> entries[i] == init[i] && entries[..i] == init[..i];
    }
  }

  /**
   * Without chains of coverage, the sequential pass agrees with the plain set
   * difference, whatever the order of the entries.
   */
  lemma FlatCoverageIsSetDifference<F>(entries: seq<CoverageEntry<F>>, w: set<F>)
    requires Flat(entries)
    ensures ApplyCoverage(entries, w) == SetDifferenceCoverage(entries, w)
  {
  }

  /**
   * A chain `1 covers 2`, `2 covers 3` satisfies the no-mutual-coverage rule,
   * yet the pass gives different results for the two orders of its entries.
   */
  lemma CoverageOrderMatters()
    ensures NoMutualCoverage([CoverageEntry(1, {2}), CoverageEntry(2, {3})])
    ensures ApplyCoverage([CoverageEntry(1, {2}), CoverageEntry(2, {3})], {1, 2, 3}) == {1, 3}
    ensures ApplyCoverage([CoverageEntry(2, {3}), CoverageEntry(1, {2})], {1, 2, 3}) == {1}
  {
  }
}
