# starkai influence maps and Q-learning state, in Dafny

This project models the core of the starkai capture-the-flag commander:

- the influence maps. These are grid stores of real values that diffuse
  towards neighbouring cells, in two revisions:
  - the package's `starkai/influencemap.py`;
  - the older top-level `influencemap.py`.
- the game state built from the level's block heights, with its eight-move
  legal-action filter (`starkai/states.py`);
- the Q-learning states and feature providers that read the maps at a move's
  target cell (`starkai/agents.py`, `starkai/qfeatures.py`);
- the base Q-learner's parameters (`starkai/qlearner.py`).

Modules, one per source file, plus a shared one:

- `Grid` (grid.dfy): cells and moves as integer pairs, continuous positions
  as real pairs, `floor` of a position plus a move, and subsequence facts
  shared by every filter.
- `LegacyInfluenceMap` (legacy_influencemap.dfy): `lerp`, the store that
  raises on an unset cell, `set_blocked`, and the inclusive-bounds neighbour
  filter.
- `InfluenceMap` (influencemap.dfy): the package map as a class.
  - The constructor's flood is proved to register exactly the cells
    reachable from (0, 0).
  - `update_map` is proved against a function that gives each cell's
    diffused value, and that value is bounded.
  - The `+`, `-` and `*` operators are loops over the stores, proved against
    the cell-wise sum, difference and product.
- `States` (states.dfy): `ACTIONS`, the blocked list, `is_blocked`,
  `get_legal_actions` and `BotState`.
- `Agents` (agents.dfy): `CTFState` and `GeneralAgent`.
- `QFeatures` (qfeatures.dfy): `MapFeatureProvider`.
- `QLearner` (qlearner.dfy): `BaseQLearner`.

Modelling conventions:

- Source values become model values as follows:
  - Positions and cells are tuples in the source. Here a cell is `(int, int)`
    and a continuous position is `(real, real)`.
  - Python's `floor` is `.Floor`.
  - The maps' float values are `real`.
- The factor `exp(-distance * decay)` is the parameter `k` of `UpdateMap`. The
  grid reports every neighbour at distance 1, so the factor is the same for
  every neighbour.
- Each blockage callback is a total function `Cell -> bool`.
- The commander that `GameState` reads from is replaced by what it supplies:
  - the block heights and the level's width and height, at construction;
  - the team members, at each call.

## Model

| member | source | states |
|---|---|---|
| Grid.FloorCell | starkai/states.py:93 | the cell of a position is the pair of its coordinates' floors: each coordinate lies in [c, c + 1) |
| Grid.Target | starkai/states.py:62 | the target of a move is the floor of position plus move, on both axes |
| LegacyInfluenceMap.Lerp | influencemap.py:11-16 | lerp(x, y, s) is x at s = 0, y at s = 1, and x when both ends are equal |
| LegacyInfluenceMap.LerpBetween | influencemap.py:11-16 | for 0 <= s <= 1 the interpolation lies between min(x, y) and max(x, y) |
| LegacyInfluenceMap.Candidates | influencemap.py:91-99 | the four candidate cells are distinct, are the 4-neighbours of the position in the order +x, -x, +y, -y, and are all of them |
| LegacyInfluenceMap.InclusiveFilter | influencemap.py:98-110 | the filter keeps a subsequence of the candidates, and a candidate is kept iff it is not blocked and 0 <= x <= width, 0 <= y <= height |
| LegacyInfluenceMap.InclusiveNeighboursFacts | influencemap.py:88-112 | get_neighbours returns at most four cells, in candidate order, and n is returned iff n is adjacent, unblocked and within the inclusive bounds |
| LegacyInfluenceMap.GridInfluenceMap.SetInfluence | influencemap.py:31-32 | the store gets the value at the position, the rest of the store is unchanged, and reading back gives the value |
| LegacyInfluenceMap.GridInfluenceMap.GetInfluence | influencemap.py:34-35 | a value is returned iff the position is in the store, and it is the stored value; an unset position raises KeyError (None) |
| LegacyInfluenceMap.GridInfluenceMap.SetBlocked | influencemap.py:80-86 | the blocked list is replaced wholesale by the argument |
| LegacyInfluenceMap.GridInfluenceMap.GetNeighbours | influencemap.py:88-112 | the loop returns the inclusive filter of the candidates: at most four, in order, each adjacent, unblocked and within the inclusive bounds, and all such cells |
| LegacyInfluenceMap.InclusiveBoundsLeaveGrid | influencemap.py:104-108 | on a 1 x 1 grid, (0, 0) is given the neighbours (1, 0) and (0, 1), which lie outside the grid |
| InfluenceMap.GetAfterSet | starkai/influencemap.py:31-35 | after set_influence(p, v), get_influence reads v at p and the old value (0.0 if unset) everywhere else |
| InfluenceMap.NeighboursAmongSpec | starkai/influencemap.py:158-170 | the filter keeps, in order, exactly the candidates that are unblocked and inside [0, width) x [0, height), each at distance 1 |
| InfluenceMap.NoOpenCandidates | starkai/influencemap.py:158-170 | when no candidate is open the neighbour list is empty |
| InfluenceMap.GridNeighboursSpec | starkai/influencemap.py:148-172 | get_neighbours returns at most four (cell, 1) pairs, in the order +x, -x, +y, -y, and n is among them iff it is an unblocked 4-neighbour inside the grid |
| InfluenceMap.DefaultCallbackRaises | starkai/influencemap.py:130 | with the default two-parameter `is_blocked`, the one-argument call in get_neighbours raises whatever the grid |
| InfluenceMap.OnePositionCallbackAgrees | starkai/influencemap.py:158-172 | with a one-position callback, the filter as written returns the model's neighbour list |
| InfluenceMap.ReachableStep | starkai/influencemap.py:141-146 | an open step out of a reachable cell reaches a reachable cell |
| InfluenceMap.ReachableIsOpen | starkai/influencemap.py:141-146 | every reachable cell other than (0, 0) is unblocked and inside the grid |
| InfluenceMap.ClosedSetHoldsReachable | starkai/influencemap.py:139-146 | a set holding (0, 0) and closed under open steps holds every reachable cell |
| InfluenceMap.EmptyGridReachesOnlyOrigin | starkai/influencemap.py:130-146 | with width or height 0 (the defaults), the only reachable cell is (0, 0) |
| InfluenceMap.Unvisited | starkai/influencemap.py:146 | the pushed cells are exactly the neighbours not yet checked |
| InfluenceMap.FloodStep | starkai/influencemap.py:141-146 | one pop-register-push iteration keeps the worklist invariant and decreases the loop's measure, so the loop terminates |
| InfluenceMap.FloodStepKeepsInvariant | starkai/influencemap.py:141-146 | after an iteration, checked and queued cells are reachable, (0, 0) is checked or queued, and open steps out of checked cells stay within checked or queued cells |
| InfluenceMap.Flood | starkai/influencemap.py:138-146 | the registration loop registers a cell iff it is reachable from (0, 0) through open 4-steps, each with value 0.0 |
| InfluenceMap.MaxContributionIsUpperBound | starkai/influencemap.py:57-62 | max_infl is at least every neighbour's decayed influence |
| InfluenceMap.MaxContributionIsAttained | starkai/influencemap.py:57-62 | max_infl is 0.0 or the decayed influence of one of the neighbours |
| InfluenceMap.DiffusionIsDetermined | starkai/influencemap.py:52-69 | a pass has one outcome, whatever order the dictionary is iterated in |
| InfluenceMap.ContributionBounded | starkai/influencemap.py:57-62 | with values in [0, bound] and 0 < k <= 1, max_infl lies in [0, bound] |
| InfluenceMap.DiffusionStaysInBounds | starkai/influencemap.py:46-69 | a pass keeps every value in [0, bound] when values start there, 0 <= momentum <= 1 and 0 < k <= 1 |
| InfluenceMap.IsolatedCellDecays | starkai/influencemap.py:57-64 | a cell without open neighbours becomes value * (1 - momentum) |
| InfluenceMap.OperatorResultOnlyDecays | starkai/influencemap.py:79 | on a map built by an operator (0 x 0 grid), one pass scales each value by (1 - momentum) |
| InfluenceMap.Added | starkai/influencemap.py:71-88 | the sum's keys are both maps' keys and (0, 0), and it reads a + b at every cell |
| InfluenceMap.SubtractedAsWritten | starkai/influencemap.py:90-107 | as written, the difference reads a - b on a's keys but b (not -b) on b-only keys |
| InfluenceMap.SubtractionAddsRightOnlyKeys | starkai/influencemap.py:103-105 | an empty map minus {(1, 1): 1.0} reads 1.0 at (1, 1), not -1.0 |
| InfluenceMap.Difference | starkai/influencemap.py:90-101 | the corrected difference has both maps' keys and (0, 0), and reads a - b at every cell |
| InfluenceMap.DifferenceUndoesAddition | starkai/influencemap.py:71-107 | (a - b) + b reads a at every cell |
| InfluenceMap.SubtractionAsWrittenAgreesOnLeftKeys | starkai/influencemap.py:90-107 | the subtraction as written equals the corrected one iff every b-only key holds 0.0 |
| InfluenceMap.Scaled | starkai/influencemap.py:109-120 | the product has a's keys and (0, 0), and reads a * s at every cell |
| InfluenceMap.AddStores | starkai/influencemap.py:79-88 | the two loops of `__add__`, run on a fresh map's store, produce the cell-wise sum |
| InfluenceMap.SubtractStores | starkai/influencemap.py:98-107 | the two loops of `__sub__`, with b-only keys negated, produce the cell-wise difference |
| InfluenceMap.ScaleStore | starkai/influencemap.py:114-120 | the loop of `__mul__` produces the cell-wise product |
| InfluenceMap.GridInfluenceMap.constructor | starkai/influencemap.py:130-146 | stores decay, momentum, width, height and the callback, and registers exactly the cells reachable from (0, 0), each at 0.0 |
| InfluenceMap.GridInfluenceMap.SetInfluence | starkai/influencemap.py:31-32 | the store gets the value at the position and nothing else changes |
| InfluenceMap.GridInfluenceMap.GetInfluence | starkai/influencemap.py:34-35 | the stored value, or 0.0 at an unset position |
| InfluenceMap.GridInfluenceMap.MaxNeighbourInfluence | starkai/influencemap.py:57-62 | the inner loop computes the running maximum from 0.0 of the neighbours' decayed values |
| InfluenceMap.GridInfluenceMap.UpdateMap | starkai/influencemap.py:46-69 | for num_times >= 1 the new store has the old keys, each holding its diffused value computed from the old store; for num_times <= 0 the store becomes empty |
| InfluenceMap.GridInfluenceMap.Blank | starkai/influencemap.py:79 | a default map registers only (0, 0), has a 0 x 0 grid, decay 0.2 and momentum 0.5 |
| InfluenceMap.GridInfluenceMap.Plus | starkai/influencemap.py:174-178 | a fresh default map holding the sum, with the left operand's callback |
| InfluenceMap.GridInfluenceMap.Minus | starkai/influencemap.py:180-184 | a fresh default map holding the corrected difference, with the left operand's callback |
| InfluenceMap.GridInfluenceMap.Times | starkai/influencemap.py:186-190 | a fresh default map holding the product, with the left operand's callback |
| States.RowBlocked | starkai/states.py:48-50 | the cells taken from one column are exactly (x, y) with a positive height |
| States.BlockedCells | starkai/states.py:47-50 | a cell is in the blocked list iff its block height exists and is positive |
| States.BlockedCellsRowMajor | starkai/states.py:47-50 | the blocked list is in row-major order (by x, then y), hence free of duplicates |
| States.CollectBlocked | starkai/states.py:45-50 | the nested loop builds the blocked list |
| States.CollectColumn | starkai/states.py:48-50 | the inner loop appends one column's blocked cells, in order |
| States.GameState.constructor | starkai/states.py:42-50 | after construction, `blocked` is the blocked list of the block heights |
| States.GameState.IsBlocked | starkai/states.py:52-54 | is_blocked(position) is membership, i.e. a positive block height at that cell |
| States.GameState.IsBlockedAt | starkai/states.py:55-56 | is_blocked(x, y) agrees with is_blocked((x, y)) |
| States.FindOccupant | starkai/states.py:70-75 | the occupancy loop answers true iff a teammate with health > 0 stands, floored, on the cell |
| States.DeadTeammateIgnored | starkai/states.py:72 | a teammate with health <= 0 never makes a cell occupied |
| States.GameState.LegalAmong | starkai/states.py:61-78 | the legal moves are a subsequence of the moves tried, and a move is kept iff its floored target is inside the level, not blocked and not occupied |
| States.GameState.GetLegalActions | starkai/states.py:58-80 | the loop returns the legal subsequence of ACTIONS |
| States.GameState.LegalActionsSpec | starkai/states.py:58-80 | the result is a duplicate-free subsequence of ACTIONS of at most eight moves; a move is in it iff allowed; it is empty iff no move is allowed |
| States.GameState.DeadTeammateKeepsLegalMoves | starkai/states.py:71-75 | adding a teammate with health <= 0 leaves the legal moves unchanged |
| States.NewBotState | starkai/states.py:88-93 | the state's position is the cell containing (x, y) |
| States.BotStateEquality | starkai/states.py:95-96 | two bot states are equal iff their positions have the same floors |
| States.Index | starkai/states.py:98-99 | state[i] is x for 0 and -2, y for 1 and -1, and IndexError (None) for every other index |
| States.TargetFromBotState | starkai/states.py:62 | from a bot state's cell, a move's floored target is the cell shifted by the move |
| Agents.CTFState.constructor | starkai/agents.py:24-32 | stores the position and the three maps unchanged |
| Agents.CTFState.OpenAmong | starkai/agents.py:43-47 | a subsequence of the moves tried, and a move is kept iff its floored target is not in `my_influence.blocked` |
| Agents.CTFState.GetLegalActions | starkai/agents.py:34-49 | the loop returns the moves of (1, 0), (-1, 0), (0, 1), (0, -1) whose target is not blocked |
| Agents.CTFState.LegalActionsSpec | starkai/agents.py:34-49 | a duplicate-free subsequence of the four directions, at most four, with a direction in it iff its target is not blocked |
| Agents.CTFState.NothingBlockedAllowsAll | starkai/agents.py:44-47 | with nothing blocked all four directions are legal: there is no bounds or occupancy check |
| Agents.CTFState.GetFeatures | starkai/agents.py:51-58 | exactly the keys my-, enemy- and final-influence, with the own and enemy maps read at the floored target, and final equal to enemy |
| Agents.FeaturesIgnoreFinalMap | starkai/agents.py:57 | the final-influence map is never read: states differing only in it have the same features |
| Agents.FeaturesDependOnTargetOnly | starkai/agents.py:52 | two moves with the same floored target give the same features |
| Agents.GeneralAgent.constructor | starkai/agents.py:65-75 | stores the living penalty, 0.0 by default |
| QFeatures.GetFeatures | starkai/qfeatures.py:41-49 | exactly the four keys; my- and enemy-influence are the maps' get_influence at the floored target, final-influence equals enemy-influence, visibility is the counter's entry there (0.0 if none) |
| QFeatures.FinalMapNeverRead | starkai/qfeatures.py:47 | replacing `final_inf` changes no feature |
| QFeatures.FeaturesDependOnTargetOnly | starkai/qfeatures.py:42 | two state-move pairs with the same floored target get the same features |
| QFeatures.ProviderExtendsStateFeatures | starkai/qfeatures.py:44-49 | over a state's own and enemy maps, the provider's features are the state's features plus visibility |
| QLearner.BaseQLearner.constructor | starkai/qlearner.py:23-34 | stores epsilon, alpha and gamma unchanged, with defaults 0.05, 0.2 and 0.8 |

## Left out

- `BaseQLearner.get_qvalue` (starkai/qlearner.py:36-40) and `BaseFeatureProvider.get_features` (starkai/qfeatures.py:22-27) are abstract and have no body, so the model has no member for them. That the abstract base classes cannot be instantiated is not modelled.
- `ApproximateQLearner` and `BaseState`, imported at starkai/agents.py:17, are not defined in starkai/qlearner.py, so importing starkai/agents.py would fail. `CTFState` is modelled without a base class.
- `GeneralAgent.tick` (starkai/agents.py:77-80) has only a docstring and does nothing. The `**args` of `GeneralAgent.__init__` are ignored by the source and are not modelled.
- `Counter` and `lerp` from `starkai.util` are not part of this model:
  - the package's get_influence reads 0.0 at an unset cell, per its own test at starkai/influencemap.py:35;
  - the visibility counter of `MapFeatureProvider` is also read with 0.0 for a missing cell;
  - the package's `lerp` is taken to be the one in influencemap.py:11-16.
- `InfluenceMap.GridInfluenceMap.UpdateMap`: `math.exp(-distance * decay)` is the parameter `k`, because exp is not available in the model. Every neighbour is at distance 1, so one factor serves them all. The bound lemmas assume 0 < k <= 1, which holds for decay >= 0.
- `BaseInfluenceMap.__getitem__` (starkai/influencemap.py:122-123) only returns `get_influence`, so it has no member of its own. `GetInfluence` covers it.
- Floating-point rounding, NaN and infinities are not modelled; values are exact reals.
- Python 2's `floor` returns a float. The model uses the integer floor, which compares equal to it.
- `InfluenceMap.GridInfluenceMap.constructor`: the source's default `is_blocked` takes two parameters. The model's default is the corrected one-position callback that blocks nothing; the as-written default is `InfluenceMap.DEFAULT_IS_BLOCKED_AS_WRITTEN` (see Findings).
- The older influencemap.py constructor (lines 25-29 and 72-78) raises NameError on `mometum` at line 27. Its class is modelled without a constructor, and its `update_map` (lines 46-65) is left out: no instance can run it.
- `CTFState` reads `my_influence.blocked`, which the package's `GridInfluenceMap` does not have. The model passes it as an explicit set of cells beside the map.
- The commander, level and team that `GameState` reads at call time are parameters. The level's width and height are fixed at construction.
- `GameState.get_legal_actions` receives a bot state indexed by `[0]` and `[1]`. The model takes that position as a point.
- `BotState.__eq__` against a non-`BotState` object is not modelled.
- The rest of the repository (commanders, the visualiser, the Q-value tables and starkai.visibility) is not part of this model.

## Findings

| source | as written | input that shows it | evidently intended | confidence | as-written member | corrected member |
|---|---|---|---|---|---|---|
| starkai/influencemap.py:130 | the default `is_blocked` is `lambda x, y: False`, but get_neighbours calls it with one position (line 161) | `GridInfluenceMap()` with defaults: the flood's first get_neighbours((0, 0)) raises TypeError, and so does every operator, each of which builds its result with `self.__class__()` | a one-parameter default that blocks nothing | high; not executed | InfluenceMap.DefaultCallbackRaises | InfluenceMap.OnePositionCallbackAgrees |
| influencemap.py:104-108 | the bounds test uses `>`, so x == width and y == height pass | a 1 x 1 grid: (0, 0) gets the neighbours (1, 0) and (0, 1), both outside the grid | `>=`, as in starkai/influencemap.py:164-167 | high; not executed | LegacyInfluenceMap.InclusiveBoundsLeaveGrid | InfluenceMap.GridNeighboursSpec |
| starkai/influencemap.py:103-105 | `__sub__` copies keys only the right operand has with their own value | an empty map minus {(1, 1): 1.0} reads 1.0 at (1, 1) | the negated value, so that a - b reads a - b at every cell | medium; not executed | InfluenceMap.SubtractionAddsRightOnlyKeys | InfluenceMap.Difference |
