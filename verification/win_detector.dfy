/** Win detection: `GameStrategy.canWin`. */
module WinDetector {
  import opened Optional
  import opened Strategy

  /**
   * A hand wins iff some win type of the catalog matches it. The override
   * `alive` (`None` for `null`) is handed unchanged to every matcher. The catalog
   * is visited in an arbitrary order and the search stops at the first match,
   * as `anyMatch` does; the verdict does not depend on the order.
   */
  method CanWin<W, F, P, T>(s: Strategy<W, F, P, T>, p: P, alive: Option<set<T>>) returns (r: bool)
    ensures r <==> exists w :: WinTypeMatches(s, w, p, alive)
    ensures s.winTypes == {} ==> !r
  {
    var remaining := s.winTypes;
    while remaining != {}
      invariant remaining <= s.winTypes
      invariant forall w :: w in s.winTypes && w !in remaining ==> !s.winMatch(w, p, alive)
      decreases remaining
    {
      var w :| w in remaining;
      if s.winMatch(w, p, alive) {
        assert WinTypeMatches(s, w, p, alive);
        return true;
      }
      remaining := remaining - {w};
    }
    return false;
  }
}
