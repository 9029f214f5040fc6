/** Fan scoring with coverage exclusion: `GameStrategy.getFans`. */
module FanScorer {
  import opened Optional
  import opened Strategy
  import opened Coverage

  /**
   * Step one of the scoring: the catalog's fan types whose matcher accepts the
   * player. The matcher is always given a `null` override (`None`), whatever
   * override the caller of the scoring passed.
   */
  function MatchedFanTypes<W, F, P, T>(s: Strategy<W, F, P, T>, p: P): (r: set<F>)
    ensures r <= s.fanTypes.Keys
  {
    set f | f in s.fanTypes && s.fanMatch(f, p, None)
  }

  /**
   * The fans of a hand and their points: the matched fan types, minus those
   * excluded by the coverage pass when a coverage map is present, each mapped
   * to its point value in the catalog. The override `alive` is not consulted.
   */
  function GetFans<W, F, P, T>(s: Strategy<W, F, P, T>, p: P, alive: Option<set<T>>): (r: map<F, int>)
    // every scored fan type comes from the catalog and matched with a null override
    ensures r.Keys <= s.fanTypes.Keys
    ensures forall f :: f in r ==> s.fanMatch(f, p, None)
    // its points are the catalog's points
    ensures forall f :: f in r ==> r[f] == s.fanTypes[f]
    // without a coverage map, every matched fan type is scored
    ensures s.coveredFanTypes.None? ==>
      forall f :: f in s.fanTypes && s.fanMatch(f, p, None) ==> f in r
    // soundness: a scored covering type leaves none of its covered types scored
    ensures s.coveredFanTypes.Some? ==> Settled(s.coveredFanTypes.value, r.Keys)
    // a matched fan type is dropped only when a matched covering type covers it
    ensures forall f :: f in s.fanTypes && s.fanMatch(f, p, None) && f !in r ==>
      s.coveredFanTypes.Some? && Dominated(s.coveredFanTypes.value, MatchedFanTypes(s, p), f)
  {
    var matched := MatchedFanTypes(s, p);
    var kept := match s.coveredFanTypes
      case None => matched
      case Some(entries) => ApplyCoverage(entries, matched);
    map f | f in kept :: s.fanTypes[f]
  }

  /** The scoring never depends on the caller's override of the alive tiles. */
  lemma GetFansIgnoresOverride<W, F, P, T>(s: Strategy<W, F, P, T>, p: P, a: Option<set<T>>, b: Option<set<T>>)
    ensures GetFans(s, p, a) == GetFans(s, p, b)
  {
  }

  /** Scoring a second time with the same coverage map removes nothing more. */
  lemma GetFansCoverageIdempotent<W, F, P, T>(s: Strategy<W, F, P, T>, p: P, alive: Option<set<T>>)
    requires s.coveredFanTypes.Some?
    ensures ApplyCoverage(s.coveredFanTypes.value, GetFans(s, p, alive).Keys) == GetFans(s, p, alive).Keys
  {
  }

  /** Fan types of a small example ruleset. */
  datatype ExampleFan = AllSimples | SevenPairs

  /**
   * Seven Pairs (4 points) covers All Simples (2 points); a hand matching both
   * scores only Seven Pairs.
   */
  lemma SevenPairsCoversAllSimples<W, P, T>(wins: set<W>, winMatch: (W, P, Option<set<T>>) -> bool, p: P, alive: Option<set<T>>)
    ensures
      var s := Strategy(wins, winMatch, map[AllSimples := 2, SevenPairs := 4],
                        (f: ExampleFan, q: P, a: Option<set<T>>) => true,
                        Some([CoverageEntry(SevenPairs, {AllSimples})]));
      GetFans(s, p, alive) == map[SevenPairs := 4]
  {
  }
}
