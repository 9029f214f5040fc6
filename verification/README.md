# Mahjong game strategy: win detection and fan scoring

This project models the decision core of a Mahjong rule strategy (`GameStrategy`).
That core consists of the two default methods of the strategy interface:

- `canWin` decides whether a player's hand wins under the strategy. It wins iff at
  least one win type in the strategy's catalog matches it.
- `getFans` computes the fans (scoring categories) of a hand and their points. It
  filters the fan catalog down to the matching fan types. Then it walks the coverage
  map and, for every covering fan type still present, removes the fan types it
  covers. Last, it maps each surviving fan type to its catalog points.

A strategy is an immutable value (`Strategy.Strategy`). It holds the win-type catalog
as a `set` and the fan catalog as a `map` from fan type to points. It holds the
coverage map as an optional `seq` of (covering, covered-set) entries. The sequence
order is the map's iteration order, and `None` is a `null` coverage map. Win and fan
types are abstract type parameters. Their `match` methods are uninterpreted predicate
fields of the strategy, over an abstract player state and an optional override of the
alive tiles (`None` is `null`).

Modules:
- `Optional`: `Option`, for Java `null`.
- `Strategy`: the strategy value and coverage entries.
- `WinDetector`: `canWin`.
- `Coverage`: the coverage pass of `getFans` and its properties.
- `FanScorer`: `getFans`.

Where the code and its own documentation comments disagree, the model follows the code:
- Lines 103-104 of `GameStrategy.java` say that a non-null `aliveTiles` replaces the
  player's alive tiles when fans are checked. Line 111 passes `null` to every fan
  matcher, so the scoring ignores the override (`FanScorer.GetFansIgnoresOverride`).
- Line 128 says a covered fan type is not counted when its covering type is also
  present. Lines 116-119 remove covered fan types from the working set one entry at a
  time, in map order. With a chain of coverage, a covered type can therefore survive
  next to a covering type that matched. `Coverage.CoverageOrderMatters` shows this:
  for the entries (1 covers 2, 2 covers 3) over {1, 2, 3}, the result is {1, 3}. Type 3
  survives although 2 matched and covers it, and the reverse entry order gives {1}.
  `Coverage.FlatCoverageIsSetDifference` proves that the sequential removal and the
  all-at-once reading agree when no covering type is itself covered.

## Model

| member | source | states |
|---|---|---|
| WinDetector.CanWin | src/main/java/com/github/blovemaple/mj/rule/GameStrategy.java:86-95 | The result is true iff some win type of the catalog matches the player under the exact override the caller passed; an empty catalog never wins; the verdict is the same for every visiting order of the catalog |
| Coverage.ApplyCoverage | src/main/java/com/github/blovemaple/mj/rule/GameStrategy.java:114-119 | The coverage pass only removes fan types; afterwards no surviving covering type has any of its covered types left; a fan type is removed only if some entry whose covering type was initially present lists it as covered |
| Coverage.SettledIsFixedPoint | src/main/java/com/github/blovemaple/mj/rule/GameStrategy.java:116-119 | A set where no present covering type has a covered type present is left unchanged by the pass |
| Coverage.CoverageIdempotent | src/main/java/com/github/blovemaple/mj/rule/GameStrategy.java:116-119 | Re-running the coverage pass on its own output changes nothing |
| Coverage.CoverageConcat | src/main/java/com/github/blovemaple/mj/rule/GameStrategy.java:116-119 | The pass is a sequential fold: walking two entry lists one after the other equals walking their concatenation |
| Coverage.ApplyCoverageSequential | src/main/java/com/github/blovemaple/mj/rule/GameStrategy.java:116-119 | A fan type survives the pass iff it was in the initial set and, for every entry that covers it, the covering type was no longer in the working set left by the entries before that one |
| Coverage.FlatCoverageIsSetDifference | src/main/java/com/github/blovemaple/mj/rule/GameStrategy.java:114-119 | When no covering type is itself covered, the sequential pass equals removing, all at once, every type covered by a present covering type, so entry order does not matter |
| Coverage.CoverageOrderMatters | src/main/java/com/github/blovemaple/mj/rule/GameStrategy.java:127-129 | A chain (1 covers 2, 2 covers 3) obeys the no-mutual-coverage rule yet yields {1, 3} in one entry order and {1} in the other |
| FanScorer.GetFans | src/main/java/com/github/blovemaple/mj/rule/GameStrategy.java:107-125 | Scored fan types are catalog fan types that match with a null override, each with its catalog points; with no coverage map every matched type is scored; with one, no scored covering type leaves a covered type scored, and a matched type is dropped only if a matched covering type covers it |
| FanScorer.GetFansIgnoresOverride | src/main/java/com/github/blovemaple/mj/rule/GameStrategy.java:107-112 | The scoring result is the same for every alive-tiles override |
| FanScorer.GetFansCoverageIdempotent | src/main/java/com/github/blovemaple/mj/rule/GameStrategy.java:114-122 | Applying the coverage map again to the scored fan types removes nothing |
| FanScorer.SevenPairsCoversAllSimples | src/main/java/com/github/blovemaple/mj/rule/GameStrategy.java:127-133 | With Seven Pairs (4) covering All Simples (2) and a hand matching both, the fans are exactly {Seven Pairs: 4} |

## Left out

- `checkReady`, `getAllTiles`, `readyContext`, `getDealAction`, `getAllActionTypesInGame`, `getAllActionTypesInTing`, `getActionPriorityComparator`, `getPlayerDefaultAction`, `getDefaultAction` and `tryEndGame` are left out. They are abstract methods with no behaviour in the source.
- `getAllWinTypes`, `getAllFanTypes` and `getAllCoveredFanTypes` are abstract too. They appear as fields of the strategy value.
- The matching logic of `WinType` and `FanType` is not part of this model. Neither are `PlayerInfo`, `Tile`, `GameContext` and `MahjongTable`. They are abstract types and uninterpreted predicates.
- Java stream, hash-set and hash-map iteration order is not modelled. The coverage map's order is the order of the given sequence. The win-type catalog is visited in an arbitrary order.
- A `null` point value in the fan catalog is not modelled. It would make `Collectors.toMap` throw (lines 121-122). A Dafny map always holds a value for each key.
- The `NullPointerException` paths are not modelled. A `null` covered set under a present covering type makes `removeAll` throw (line 118). A `null` catalog from `getAllWinTypes` (line 92) or `getAllFanTypes` (lines 110, 122) throws too. The catalogs and covered sets of the model are always present values.
- The caching notes (lines 94, 124) describe no behaviour and are left out.
- The no-mutual-coverage rule (line 129) is defined as `Coverage.NoMutualCoverage`; like the rule, it forbids two distinct fan types covering each other and says nothing about a fan type covering itself. The code does not check it, so no member requires it.
- A coverage sequence may repeat a covering type, which a Java map cannot. Every stated property holds without uniqueness.
- A total score is not modelled. The source returns only the per-fan breakdown.
