/**
  The agent roles of starkai/agents.py: the Q-learning state CTFState (a
  position and three influence maps) with its four-direction legal-move
  filter and its feature dictionary, and the GeneralAgent that holds a
  living penalty.

  `my_influence.blocked` is read by the source but is not an attribute of
  the package's GridInfluenceMap; here it is an abstract set of cells given
  to the constructor next to the map it belongs to.
 */
module Agents {
  import opened Grid
  import InfluenceMap

  /** East, west, north, south: the moves the filter tries, in this order. */
  const DIRECTIONS: seq<Action> := [(1, 0), (-1, 0), (0, 1), (0, -1)]

  const MY_INFLUENCE: string := "my-influence"
  const ENEMY_INFLUENCE: string := "enemy-influence"
  const FINAL_INFLUENCE: string := "final-influence"

  class CTFState {
    var position: Point
    var myInfluence: InfluenceMap.GridInfluenceMap
    /** The `blocked` collection of `my_influence`. */
    var myBlocked: set<Cell>
    var enemyInfluence: InfluenceMap.GridInfluenceMap
    var finalInfluence: InfluenceMap.GridInfluenceMap

    /** Stores its arguments and nothing else. */
    constructor (position: Point, myInfluence: InfluenceMap.GridInfluenceMap, myBlocked: set<Cell>,
                 enemyInfluence: InfluenceMap.GridInfluenceMap, finalInfluence: InfluenceMap.GridInfluenceMap)
      ensures this.position == position && this.myInfluence == myInfluence && this.myBlocked == myBlocked
      ensures this.enemyInfluence == enemyInfluence && this.finalInfluence == finalInfluence
    {
      this.position := position;
      this.myInfluence := myInfluence;
      this.myBlocked := myBlocked;
      this.enemyInfluence := enemyInfluence;
      this.finalInfluence := finalInfluence;
    }

    /** The move's floored target is not in `my_influence.blocked`; no bounds or occupancy test. */
    predicate Open(a: Action)
      reads this
    {
      Target(position, a) !in myBlocked
    }

    /** The open moves among `acts`, in their order. */
    function OpenAmong(acts: seq<Action>): (r: seq<Action>)
      reads this
      ensures IsSubsequence(r, acts)
      ensures forall a :: a in r <==> a in acts && Open(a)
      decreases |acts|
    {
      if acts == [] then []
      else
        var init := acts[..|acts| - 1];
        var last := acts[|acts| - 1];
        var kept := OpenAmong(init);
        assert acts == init + [last];
        SubsequenceExtend(kept, init, last);
        if Open(last) then kept + [last] else kept
    }

    /** get_legal_actions: the directions, in order, whose floored target is not blocked. */
    method GetLegalActions() returns (legal: seq<Action>)
      ensures legal == OpenAmong(DIRECTIONS)
    {
      legal := [];
      for i := 0 to |DIRECTIONS|
        invariant legal == OpenAmong(DIRECTIONS[..i])
      {
        var action := DIRECTIONS[i];
        assert DIRECTIONS[..i + 1][..i] == DIRECTIONS[..i] && DIRECTIONS[..i + 1][i] == action;
        var target := ((position.0 + action.0 as real).Floor, (position.1 + action.1 as real).Floor);
        if target !in myBlocked {
          legal := legal + [action];
        }
      }
      assert DIRECTIONS[..|DIRECTIONS|] == DIRECTIONS;
    }

    /**
      The legal moves are a duplicate-free subsequence of DIRECTIONS, at most
      four, and a direction is among them exactly when its target is not
      blocked.
     */
    lemma LegalActionsSpec()
      ensures var r := OpenAmong(DIRECTIONS);
        && IsSubsequence(r, DIRECTIONS)
        && NoDuplicates(r)
        && |r| <= 4
        && (forall a :: a in r <==> a in DIRECTIONS && Target(position, a) !in myBlocked)
    {
      var r := OpenAmong(DIRECTIONS);
      SubsequenceMembers(r, DIRECTIONS);
      SubsequenceNoDuplicates(r, DIRECTIONS);
    }

    /**
      With nothing blocked every direction is legal, even one that leaves the
      level: the filter has no bounds check.
     */
    lemma NothingBlockedAllowsAll()
      requires myBlocked == {}
      ensures OpenAmong(DIRECTIONS) == DIRECTIONS
    {
      AllOpenKeepsAll(DIRECTIONS);
    }

    /** When every move of `acts` is open, the filter keeps them all. */
    lemma {:induction false} AllOpenKeepsAll(acts: seq<Action>)
      requires forall a :: a in acts ==> Open(a)
      ensures OpenAmong(acts) == acts
      decreases |acts|
    {
      if acts != [] {
        AllOpenKeepsAll(acts[..|acts| - 1]);
        assert acts[..|acts| - 1] + [acts[|acts| - 1]] == acts;
      }
    }

    /**
      get_features: exactly the three influence keys, read at the move's
      floored target; 'final-influence' repeats the enemy map's value.
     */
    function GetFeatures(action: Action): (r: map<string, real>)
      reads this, myInfluence, enemyInfluence
      ensures r.Keys == {MY_INFLUENCE, ENEMY_INFLUENCE, FINAL_INFLUENCE}
      ensures r[MY_INFLUENCE] == InfluenceMap.Get(myInfluence.influence, Target(position, action))
      ensures r[ENEMY_INFLUENCE] == InfluenceMap.Get(enemyInfluence.influence, Target(position, action))
      ensures r[FINAL_INFLUENCE] == r[ENEMY_INFLUENCE]
    {
      var target := ((position.0 + action.0 as real).Floor, (position.1 + action.1 as real).Floor);
      map[MY_INFLUENCE := myInfluence.GetInfluence(target),
          ENEMY_INFLUENCE := enemyInfluence.GetInfluence(target),
          FINAL_INFLUENCE := enemyInfluence.GetInfluence(target)]
    }
  }

  /**
    The final-influence map is never read: two states that agree on the
    position and on the stores of the other two maps have the same features.
   */
  lemma FeaturesIgnoreFinalMap(s: CTFState, t: CTFState, action: Action)
    requires s.position == t.position
    requires s.myInfluence.influence == t.myInfluence.influence
    requires s.enemyInfluence.influence == t.enemyInfluence.influence
    ensures s.GetFeatures(action) == t.GetFeatures(action)
  {
  }

  /** Features depend on the move only through its target cell. */
  lemma FeaturesDependOnTargetOnly(s: CTFState, a: Action, b: Action)
    requires Target(s.position, a) == Target(s.position, b)
    ensures s.GetFeatures(a) == s.GetFeatures(b)
  {
  }

  /** A general agent: only its per-tick living penalty, 0.0 unless given. */
  class GeneralAgent {
    var livingPenalty: real

    constructor (livingPenalty: real := 0.0)
      ensures this.livingPenalty == livingPenalty
    {
      this.livingPenalty := livingPenalty;
    }
  }
}
