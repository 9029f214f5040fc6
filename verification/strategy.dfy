/**
 * One game strategy (ruleset) as an immutable value: its win-type catalog, its
 * fan-type catalog with point values, and its coverage relation between fan types.
 * The matching logic of individual win and fan types is not part of this model;
 * each catalog therefore comes with an uninterpreted matcher predicate.
 */
module Strategy {
  import opened Optional

  /**
   * One entry of the coverage relation: when `covering` is still counted,
   * none of the fan types in `covered` are counted.
   */
  datatype CoverageEntry<F> = CoverageEntry(covering: F, covered: set<F>)

  /**
   * A strategy over win types `W`, fan types `F`, player states `P` and tiles `T`.
   *  - `winTypes` is the catalog returned by `getAllWinTypes`;
   *  - `winMatch(w, p, alive)` is `w.match(p, alive)`, where `alive == None` is a
   *    `null` override meaning "use the player's own alive tiles";
   *  - `fanTypes` is the catalog returned by `getAllFanTypes`, fan type to points;
   *  - `fanMatch(f, p, alive)` is `f.match(p, alive)`;
   *  - `coveredFanTypes` is `getAllCoveredFanTypes`, `None` for a `null` map; its
   *    entries are listed in the map's iteration order.
   */
  datatype Strategy<!W, !F, !P, !T> = Strategy(
    winTypes: set<W>,
    winMatch: (W, P, Option<set<T>>) -> bool,
    fanTypes: map<F, int>,
    fanMatch: (F, P, Option<set<T>>) -> bool,
    coveredFanTypes: Option<seq<CoverageEntry<F>>>)

  /** True iff win type `w` accepts player `p` under the override `alive`. */
  predicate WinTypeMatches<W, F, P, T>(s: Strategy<W, F, P, T>, w: W, p: P, alive: Option<set<T>>)
  {
    w in s.winTypes && s.winMatch(w, p, alive)
  }
}
