/**
  The feature provider of starkai/qfeatures.py: for a state's position and a
  move, four features read at the move's floored target cell, from the own
  and enemy influence maps and from a visibility table (a counter: 0.0 for a
  cell it has no entry for).

  The provider only holds its four collaborators and computing features
  changes nothing, so it is a value holding the two maps it reads.
 */
module QFeatures {
  import opened Grid
  import InfluenceMap
  import Agents

  const VISIBILITY: string := "visibility"

  datatype MapFeatureProvider = MapFeatureProvider(
    myInf: InfluenceMap.GridInfluenceMap,
    enemyInf: InfluenceMap.GridInfluenceMap,
    finalInf: InfluenceMap.GridInfluenceMap,
    visibility: map<Cell, real>)

  /**
    get_features for a state at `position` and the move `action`: exactly the
    keys 'my-influence', 'enemy-influence', 'final-influence' and
    'visibility', read at the floored target; 'final-influence' repeats the
    enemy map's value.
   */
  function GetFeatures(provider: MapFeatureProvider, position: Point, action: Action): (r: map<string, real>)
    reads provider.myInf, provider.enemyInf
    ensures r.Keys == {Agents.MY_INFLUENCE, Agents.ENEMY_INFLUENCE, Agents.FINAL_INFLUENCE, VISIBILITY}
    ensures r[Agents.MY_INFLUENCE] == InfluenceMap.Get(provider.myInf.influence, Target(position, action))
    ensures r[Agents.ENEMY_INFLUENCE] == InfluenceMap.Get(provider.enemyInf.influence, Target(position, action))
    ensures r[Agents.FINAL_INFLUENCE] == r[Agents.ENEMY_INFLUENCE]
    ensures r[VISIBILITY] == InfluenceMap.Get(provider.visibility, Target(position, action))
  {
    var target := ((position.0 + action.0 as real).Floor, (position.1 + action.1 as real).Floor);
    map[Agents.MY_INFLUENCE := provider.myInf.GetInfluence(target),
        Agents.ENEMY_INFLUENCE := provider.enemyInf.GetInfluence(target),
        Agents.FINAL_INFLUENCE := provider.enemyInf.GetInfluence(target),
        VISIBILITY := if target in provider.visibility then provider.visibility[target] else 0.0]
  }

  /** `final_inf` is stored but never read: replacing it changes no feature. */
  lemma FinalMapNeverRead(provider: MapFeatureProvider, other: InfluenceMap.GridInfluenceMap, position: Point, action: Action)
    ensures GetFeatures(provider.(finalInf := other), position, action) == GetFeatures(provider, position, action)
  {
  }

  /** Features depend on the state and the move only through the target cell. */
  lemma FeaturesDependOnTargetOnly(provider: MapFeatureProvider, p: Point, a: Action, q: Point, b: Action)
    requires Target(p, a) == Target(q, b)
    ensures GetFeatures(provider, p, a) == GetFeatures(provider, q, b)
  {
  }

  /**
    A provider over a state's own and enemy maps gives that state's features
    plus the visibility entry.
   */
  lemma ProviderExtendsStateFeatures(provider: MapFeatureProvider, s: Agents.CTFState, action: Action)
    requires provider.myInf == s.myInfluence && provider.enemyInf == s.enemyInfluence
    ensures GetFeatures(provider, s.position, action) - {VISIBILITY} == s.GetFeatures(action)
  {
    var r := GetFeatures(provider, s.position, action) - {VISIBILITY};
    var t := s.GetFeatures(action);
    assert r.Keys == t.Keys;
  }
}
