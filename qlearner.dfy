/**
  The base Q-learner of starkai/qlearner.py: it holds the exploration rate
  epsilon, the learning factor alpha and the discount factor gamma, and
  nothing else.
 */
module QLearner {
  const DEFAULT_EPSILON: real := 0.05
  const DEFAULT_ALPHA: real := 0.2
  const DEFAULT_GAMMA: real := 0.8

  class BaseQLearner {
    var epsilon: real
    var alpha: real
    var gamma: real

    /** Stores the three parameters unchanged; each has its default. */
    constructor (epsilon: real := DEFAULT_EPSILON, alpha: real := DEFAULT_ALPHA, gamma: real := DEFAULT_GAMMA)
      ensures this.epsilon == epsilon && this.alpha == alpha && this.gamma == gamma
    {
      this.epsilon := epsilon;
      this.alpha := alpha;
      this.gamma := gamma;
    }
  }
}
