/**
  The package influence map (starkai/influencemap.py): a store from grid cell
  to value that reads 0.0 at unset cells, a 4-connected neighbour filter over
  a width x height grid with a blockage callback, a worklist flood that
  registers every cell reachable from (0, 0), one diffusion pass that blends
  each known cell towards its strongest decayed neighbour, and map algebra.

  The abstract base class and its only concrete grid subclass are one class
  here, GridInfluenceMap. The blockage callback is a total function on cells.
  The decay factor exp(-distance * decay) is the real parameter `k`: every
  neighbour the grid returns is at distance 1, so the factor is the same
  exp(-decay) for every neighbour, and exp is not available to the model.
 */
module InfluenceMap {
  import opened Grid
  import L = LegacyInfluenceMap

  /** A neighbour as the grid returns it: (position, distance). */
  type Neighbour = (Cell, int)

  /** get_influence on a bare store: the stored value, or 0.0 at an unset cell. */
  function Get(m: map<Cell, real>, p: Cell): real
  {
    if p in m then m[p] else 0.0
  }

  /** Reading after writing sees the written value at that cell and the old store elsewhere. */
  lemma GetAfterSet(m: map<Cell, real>, p: Cell, v: real, q: Cell)
    ensures Get(m[p := v], q) == if q == p then v else Get(m, q)
  {
  }

  // ----- Neighbours -------------------------------------------------------

  /** A cell the grid lets influence flow into: the callback does not block it, and it lies in [0, width) x [0, height). */
  predicate IsOpen(c: Cell, width: int, height: int, isBlocked: Cell -> bool)
  {
    !isBlocked(c) && 0 <= c.0 < width && 0 <= c.1 < height
  }

  /** `n` is one of the open 4-neighbours of `c`. */
  predicate Step(c: Cell, n: Cell, width: int, height: int, isBlocked: Cell -> bool)
  {
    Adjacent(c, n) && IsOpen(n, width, height, isBlocked)
  }

  /** The positions of a list of neighbours, in order. */
  function Cells(ns: seq<Neighbour>): (r: seq<Cell>)
    ensures |r| == |ns|
    ensures forall i :: 0 <= i < |ns| ==> r[i] == ns[i].0
  {
    if ns == [] then [] else [ns[0].0] + Cells(ns[1..])
  }

  /**
    The filter of get_neighbours over the candidate cells `cs`: a blocked
    candidate is skipped first, then one outside [0, width), then one outside
    [0, height); the others are kept, each with distance 1.
   */
  function NeighboursAmong(cs: seq<Cell>, width: int, height: int, isBlocked: Cell -> bool): (r: seq<Neighbour>)
    ensures |r| <= |cs|
  {
    if cs == [] then []
    else
      var rest := NeighboursAmong(cs[1..], width, height, isBlocked);
      if isBlocked(cs[0]) then rest
      else if cs[0].0 < 0 || cs[0].0 >= width then rest
      else if cs[0].1 < 0 || cs[0].1 >= height then rest
      else [(cs[0], 1)] + rest
  }

  /** The filter keeps exactly the open candidates, in their order, each at distance 1. */
  lemma {:induction false} NeighboursAmongSpec(cs: seq<Cell>, width: int, height: int, isBlocked: Cell -> bool)
    ensures var r := NeighboursAmong(cs, width, height, isBlocked);
      && (forall i :: 0 <= i < |r| ==> r[i].1 == 1 && IsOpen(r[i].0, width, height, isBlocked))
      && IsSubsequence(Cells(r), cs)
      && (forall c :: c in Cells(r) <==> c in cs && IsOpen(c, width, height, isBlocked))
  {
    if cs != [] {
      NeighboursAmongSpec(cs[1..], width, height, isBlocked);
      var rest := NeighboursAmong(cs[1..], width, height, isBlocked);
      var r := NeighboursAmong(cs, width, height, isBlocked);
      assert cs == [cs[0]] + cs[1..];
      if IsOpen(cs[0], width, height, isBlocked) {
        assert r == [(cs[0], 1)] + rest;
        assert Cells(r) == [cs[0]] + Cells(rest);
      } else {
        assert r == rest;
        if Cells(r) != [] {
          assert Cells(r)[0] in Cells(rest);
        }
      }
    }
  }

  /** A list of candidates none of which is open leaves nothing. */
  lemma {:induction false} NoOpenCandidates(cs: seq<Cell>, width: int, height: int, isBlocked: Cell -> bool)
    requires forall c :: c in cs ==> !IsOpen(c, width, height, isBlocked)
    ensures NeighboursAmong(cs, width, height, isBlocked) == []
  {
    if cs != [] {
      assert cs[0] in cs;
      NoOpenCandidates(cs[1..], width, height, isBlocked);
    }
  }

  /** get_neighbours: the open cells among +x, -x, +y, -y of `p`, in that order, each at distance 1. */
  function GridNeighbours(p: Cell, width: int, height: int, isBlocked: Cell -> bool): seq<Neighbour>
  {
    NeighboursAmong(L.Candidates(p), width, height, isBlocked)
  }

  /**
    At most four neighbours; each is a 4-neighbour of `p` at distance 1 that
    is unblocked and inside the grid; every such cell is returned; and they
    come in the order east, west, +y, -y.
   */
  lemma GridNeighboursSpec(p: Cell, width: int, height: int, isBlocked: Cell -> bool)
    ensures var r := GridNeighbours(p, width, height, isBlocked);
      && |r| <= 4
      && (forall i :: 0 <= i < |r| ==> r[i].1 == 1 && Adjacent(p, r[i].0) && IsOpen(r[i].0, width, height, isBlocked))
      && (forall n :: n in Cells(r) <==> Step(p, n, width, height, isBlocked))
      && IsSubsequence(Cells(r), L.Candidates(p))
  {
    var r := GridNeighbours(p, width, height, isBlocked);
    NeighboursAmongSpec(L.Candidates(p), width, height, isBlocked);
    forall i | 0 <= i < |r| ensures Adjacent(p, r[i].0) {
      assert Cells(r)[i] in Cells(r);
    }
  }

  // ----- The default blockage callback as written -------------------------

  /**
    The two shapes a blockage callback has in the source: one taking a
    position, as get_neighbours calls it, and the constructor's default,
    which takes two coordinates.
   */
  datatype BlockageCallback = OnePosition(f: Cell -> bool) | TwoCoordinates(g: (int, int) -> bool)

  /** The constructor's default callback exactly as written: two parameters, always False. */
  const DEFAULT_IS_BLOCKED_AS_WRITTEN: BlockageCallback := TwoCoordinates((x, y) => false)

  /** get_neighbours's one-argument call; None is the TypeError a two-parameter callback raises. */
  function CallWithPosition(cb: BlockageCallback, c: Cell): Option<bool>
  {
    match cb
    case OnePosition(f) => Some(f(c))
    case TwoCoordinates(_) => None
  }

  /** The neighbour filter as written, over any callback; None where the callback call raises. */
  function NeighboursAsWritten(cs: seq<Cell>, width: int, height: int, cb: BlockageCallback): Option<seq<Neighbour>>
  {
    if cs == [] then Some([])
    else
      match CallWithPosition(cb, cs[0])
      case None => None
      case Some(blocked) =>
        var rest := NeighboursAsWritten(cs[1..], width, height, cb);
        if rest.None? then None
        else if blocked then rest
        else if cs[0].0 < 0 || cs[0].0 >= width then rest
        else if cs[0].1 < 0 || cs[0].1 >= height then rest
        else Some([(cs[0], 1)] + rest.value)
  }

  /**
    With the default callback, get_neighbours raises on its first candidate,
    whatever the grid: so GridInfluenceMap() raises in its flood, and so does
    every operator, each of which builds its result with the default
    constructor.
   */
  lemma DefaultCallbackRaises(p: Cell, width: int, height: int)
    ensures NeighboursAsWritten(L.Candidates(p), width, height, DEFAULT_IS_BLOCKED_AS_WRITTEN) == None
  {
  }

  /** On a one-position callback the filter as written is the model's GridNeighbours. */
  lemma {:induction false} OnePositionCallbackAgrees(cs: seq<Cell>, width: int, height: int, f: Cell -> bool)
    ensures NeighboursAsWritten(cs, width, height, OnePosition(f)) == Some(NeighboursAmong(cs, width, height, f))
  {
    if cs != [] {
      OnePositionCallbackAgrees(cs[1..], width, height, f);
    }
  }

  // ----- Reachability and the registration flood --------------------------

  /** A walk from (0, 0) that only ever steps into open 4-neighbours. */
  ghost predicate IsWalk(w: seq<Cell>, width: int, height: int, isBlocked: Cell -> bool)
  {
    |w| > 0 && w[0] == (0, 0) &&
    forall i, j :: 0 <= i && j == i + 1 && j < |w| ==> Step(w[i], w[j], width, height, isBlocked)
  }

  ghost predicate Reachable(c: Cell, width: int, height: int, isBlocked: Cell -> bool)
  {
    exists w :: IsWalk(w, width, height, isBlocked) && w[|w| - 1] == c
  }

  lemma ReachableStep(c: Cell, n: Cell, width: int, height: int, isBlocked: Cell -> bool)
    requires Reachable(c, width, height, isBlocked) && Step(c, n, width, height, isBlocked)
    ensures Reachable(n, width, height, isBlocked)
  {
    var w :| IsWalk(w, width, height, isBlocked) && w[|w| - 1] == c;
    var w' := w + [n];
    assert IsWalk(w', width, height, isBlocked);
  }

  /** Every reachable cell other than (0, 0) is open: unblocked and inside the grid. */
  lemma ReachableIsOpen(c: Cell, width: int, height: int, isBlocked: Cell -> bool)
    requires Reachable(c, width, height, isBlocked) && c != (0, 0)
    ensures IsOpen(c, width, height, isBlocked)
  {
    var w :| IsWalk(w, width, height, isBlocked) && w[|w| - 1] == c;
    assert |w| > 1;
    assert Step(w[|w| - 2], w[|w| - 1], width, height, isBlocked);
  }

  lemma {:induction false} WalkStaysInClosedSet(s: set<Cell>, w: seq<Cell>, width: int, height: int, isBlocked: Cell -> bool)
    requires (0, 0) in s
    requires forall c, n :: c in s && Step(c, n, width, height, isBlocked) ==> n in s
    requires IsWalk(w, width, height, isBlocked)
    ensures w[|w| - 1] in s
    decreases |w|
  {
    if |w| > 1 {
      var w' := w[..|w| - 1];
      assert IsWalk(w', width, height, isBlocked);
      WalkStaysInClosedSet(s, w', width, height, isBlocked);
      assert Step(w[|w| - 2], w[|w| - 1], width, height, isBlocked);
    }
  }

  /** A set holding (0, 0) and closed under open 4-steps holds every reachable cell. */
  lemma ClosedSetHoldsReachable(s: set<Cell>, width: int, height: int, isBlocked: Cell -> bool)
    requires (0, 0) in s
    requires forall c, n :: c in s && Step(c, n, width, height, isBlocked) ==> n in s
    ensures forall c :: Reachable(c, width, height, isBlocked) ==> c in s
  {
    forall c | Reachable(c, width, height, isBlocked) ensures c in s {
      var w :| IsWalk(w, width, height, isBlocked) && w[|w| - 1] == c;
      WalkStaysInClosedSet(s, w, width, height, isBlocked);
    }
  }

  /** On a grid with no cells, only (0, 0) itself is reachable. */
  lemma EmptyGridReachesOnlyOrigin(width: int, height: int, isBlocked: Cell -> bool)
    requires width <= 0 || height <= 0
    ensures forall c :: Reachable(c, width, height, isBlocked) <==> c == (0, 0)
  {
    assert IsWalk([(0, 0)], width, height, isBlocked);
    forall c | Reachable(c, width, height, isBlocked) ensures c == (0, 0) {
      if c != (0, 0) {
        ReachableIsOpen(c, width, height, isBlocked);
      }
    }
  }

  /** The cells (x, 0) .. (x, height - 1) of column x. */
  ghost function Column(x: int, height: int): (s: set<Cell>)
    ensures forall c :: c in s <==> c.0 == x && 0 <= c.1 < height
    decreases height
  {
    if height <= 0 then {} else Column(x, height - 1) + {(x, height - 1)}
  }

  /** The cells of the first `width` columns: the whole width x height grid. */
  ghost function GridCells(width: int, height: int): (s: set<Cell>)
    ensures forall c :: c in s <==> 0 <= c.0 < width && 0 <= c.1 < height
    decreases width
  {
    if width <= 0 then {} else GridCells(width - 1, height) + Column(width - 1, height)
  }

  /** The cells of the grid, and (0, 0): a finite set that holds every reachable cell. */
  ghost function Universe(width: int, height: int): (s: set<Cell>)
    ensures forall c :: c in s <==> c == (0, 0) || (0 <= c.0 < width && 0 <= c.1 < height)
  {
    GridCells(width, height) + {(0, 0)}
  }

  lemma ReachableInUniverse(c: Cell, width: int, height: int, isBlocked: Cell -> bool)
    requires Reachable(c, width, height, isBlocked)
    ensures c in Universe(width, height)
  {
    if c != (0, 0) {
      ReachableIsOpen(c, width, height, isBlocked);
    }
  }

  /** A finite set of cells that holds every reachable cell. */
  lemma ReachableBound(width: int, height: int, isBlocked: Cell -> bool) returns (u: set<Cell>)
    ensures forall c {:trigger Reachable(c, width, height, isBlocked)} :: Reachable(c, width, height, isBlocked) ==> c in u
  {
    u := Universe(width, height);
    forall c | Reachable(c, width, height, isBlocked) ensures c in u {
      ReachableInUniverse(c, width, height, isBlocked);
    }
  }

  /** The positions among `ns` that are not yet in `checked`, in order. */
  function Unvisited(ns: seq<Neighbour>, checked: set<Cell>): (r: seq<Cell>)
    ensures forall c :: c in r <==> c in Cells(ns) && c !in checked
  {
    if ns == [] then []
    else
      assert Cells(ns)[1..] == Cells(ns[1..]);
      (if ns[0].0 in checked then [] else [ns[0].0]) + Unvisited(ns[1..], checked)
  }

  /**
    What holds of the registration worklist between two iterations: every
    queued or checked cell is reachable, (0, 0) is checked or queued, and an
    open step out of a checked cell leads to a checked or queued cell.
   */
  ghost predicate FloodInvariant(checked: set<Cell>, queue: seq<Cell>, width: int, height: int, isBlocked: Cell -> bool)
  {
    && (forall c {:trigger Reachable(c, width, height, isBlocked)} :: c in queue ==> Reachable(c, width, height, isBlocked))
    && (forall c {:trigger Reachable(c, width, height, isBlocked)} :: c in checked ==> Reachable(c, width, height, isBlocked))
    && ((0, 0) in checked || (0, 0) in queue)
    && (forall c, n :: c in checked && Step(c, n, width, height, isBlocked) ==> n in checked || n in queue)
  }

  /** 0 when the cell on top of the worklist is still unchecked, 1 otherwise. */
  function TopChecked(queue: seq<Cell>, checked: set<Cell>): nat
  {
    if queue != [] && queue[|queue| - 1] !in checked then 0 else 1
  }

  /**
    One iteration of the registration loop: pop the top `position`, check it
    and push its open neighbours that are not checked. It keeps the worklist
    invariant, and it makes progress: either one more cell of the finite
    universe is checked, or the unchecked count stays and the top of the
    worklist becomes unchecked, or the worklist gets shorter.
   */
  lemma FloodStep(checked: set<Cell>, queue: seq<Cell>, checked': set<Cell>, queue': seq<Cell>, u: set<Cell>,
                  width: int, height: int, isBlocked: Cell -> bool)
    requires queue != []
    requires forall c {:trigger Reachable(c, width, height, isBlocked)} :: Reachable(c, width, height, isBlocked) ==> c in u
    requires FloodInvariant(checked, queue, width, height, isBlocked)
    requires checked' == checked + {queue[|queue| - 1]}
    requires queue' == queue[..|queue| - 1] + Unvisited(GridNeighbours(queue[|queue| - 1], width, height, isBlocked), checked')
    ensures FloodInvariant(checked', queue', width, height, isBlocked)
    ensures |checked'| <= |u|
    ensures |checked'| > |checked| ||
      (|checked'| == |checked| &&
       (TopChecked(queue', checked') < TopChecked(queue, checked) ||
        (TopChecked(queue', checked') == TopChecked(queue, checked) && |queue'| < |queue|)))
  {
    FloodStepKeepsInvariant(checked, queue, checked', queue', width, height, isBlocked);
    CheckedWithinBound(checked', u, width, height, isBlocked);
    FloodProgress(checked, queue, Unvisited(GridNeighbours(queue[|queue| - 1], width, height, isBlocked), checked'));
  }

  /** One iteration of the registration loop keeps the worklist invariant. */
  lemma FloodStepKeepsInvariant(checked: set<Cell>, queue: seq<Cell>, checked': set<Cell>, queue': seq<Cell>,
                                width: int, height: int, isBlocked: Cell -> bool)
    requires queue != []
    requires FloodInvariant(checked, queue, width, height, isBlocked)
    requires checked' == checked + {queue[|queue| - 1]}
    requires queue' == queue[..|queue| - 1] + Unvisited(GridNeighbours(queue[|queue| - 1], width, height, isBlocked), checked')
    ensures FloodInvariant(checked', queue', width, height, isBlocked)
  {
    var position := queue[|queue| - 1];
    var rest := queue[..|queue| - 1];
    assert queue == rest + [position];
    var ns := GridNeighbours(position, width, height, isBlocked);
    var pushed := Unvisited(ns, checked');
    GridNeighboursSpec(position, width, height, isBlocked);
    assert Reachable(position, width, height, isBlocked) by {
      assert position in queue;
    }
    PushKeepsReachable(position, rest, pushed, width, height, isBlocked);
    PushKeepsClosed(checked, position, rest, pushed, width, height, isBlocked);
  }

  /** A set of reachable cells is no larger than a set holding every reachable cell. */
  lemma CheckedWithinBound(checked: set<Cell>, u: set<Cell>, width: int, height: int, isBlocked: Cell -> bool)
    requires forall c {:trigger Reachable(c, width, height, isBlocked)} :: Reachable(c, width, height, isBlocked) ==> c in u
    requires forall c {:trigger Reachable(c, width, height, isBlocked)} :: c in checked ==> Reachable(c, width, height, isBlocked)
    ensures |checked| <= |u|
  {
    assert checked <= u by {
      forall c | c in checked ensures c in u {
        assert Reachable(c, width, height, isBlocked);
      }
    }
    SubsetCardinality(checked, u);
  }

  lemma SubsetCardinality(a: set<Cell>, b: set<Cell>)
    requires a <= b
    ensures |a| <= |b|
  {
    assert b == a + (b - a);
  }

  /**
    The measure of the registration loop goes down: one more cell is
    checked, or else the top of the worklist turns unchecked, or else the
    worklist gets shorter.
   */
  lemma FloodProgress(checked: set<Cell>, queue: seq<Cell>, pushed: seq<Cell>)
    requires queue != []
    requires forall c :: c in pushed ==> c !in checked + {queue[|queue| - 1]}
    ensures var checked' := checked + {queue[|queue| - 1]};
      var queue' := queue[..|queue| - 1] + pushed;
      |checked'| > |checked| ||
      (|checked'| == |checked| &&
       (TopChecked(queue', checked') < TopChecked(queue, checked) ||
        (TopChecked(queue', checked') == TopChecked(queue, checked) && |queue'| < |queue|)))
  {
    var position := queue[|queue| - 1];
    var checked' := checked + {position};
    var queue' := queue[..|queue| - 1] + pushed;
    if position in checked {
      assert checked' == checked;
      if pushed != [] {
        assert queue'[|queue'| - 1] == pushed[|pushed| - 1] && pushed[|pushed| - 1] in pushed;
      } else {
        assert queue' == queue[..|queue| - 1];
      }
    }
  }

  /** Cells pushed as open steps out of a reachable cell are reachable. */
  lemma PushKeepsReachable(position: Cell, rest: seq<Cell>, pushed: seq<Cell>, width: int, height: int, isBlocked: Cell -> bool)
    requires Reachable(position, width, height, isBlocked)
    requires forall c {:trigger Reachable(c, width, height, isBlocked)} :: c in rest ==> Reachable(c, width, height, isBlocked)
    requires forall c :: c in pushed ==> Step(position, c, width, height, isBlocked)
    ensures forall c {:trigger Reachable(c, width, height, isBlocked)} :: c in rest + pushed ==> Reachable(c, width, height, isBlocked)
  {
    forall c | c in rest + pushed ensures Reachable(c, width, height, isBlocked) {
      if c in pushed {
        ReachableStep(position, c, width, height, isBlocked);
      }
    }
  }

  /**
    Checking the popped `position` and pushing its unchecked open steps
    keeps the checked set closed up to the worklist.
   */
  lemma PushKeepsClosed(checked: set<Cell>, position: Cell, rest: seq<Cell>, pushed: seq<Cell>,
                        width: int, height: int, isBlocked: Cell -> bool)
    requires forall c, n :: c in checked && Step(c, n, width, height, isBlocked) ==> n in checked || n in rest + [position]
    requires forall n :: Step(position, n, width, height, isBlocked) ==> n in checked + {position} || n in pushed
    ensures forall c, n :: c in checked + {position} && Step(c, n, width, height, isBlocked) ==>
      n in checked + {position} || n in rest + pushed
  {
    forall c, n | c in checked + {position} && Step(c, n, width, height, isBlocked)
      ensures n in checked + {position} || n in rest + pushed
    {
      if c != position {
        assert n in checked || n in rest + [position];
      }
    }
  }

  // ----- Diffusion --------------------------------------------------------

  /** What neighbour `n` offers: its value times the decay factor `k`. */
  function Contribution(m: map<Cell, real>, n: Neighbour, k: real): real
  {
    Get(m, n.0) * k
  }

  /**
    max(0.0, contributions...): the running maximum, from 0.0, of each
    neighbour's contribution, folded in list order.
   */
  function MaxContribution(m: map<Cell, real>, ns: seq<Neighbour>, k: real): (r: real)
    ensures 0.0 <= r
    decreases |ns|
  {
    if ns == [] then 0.0
    else L.Max(MaxContribution(m, ns[..|ns| - 1], k), Contribution(m, ns[|ns| - 1], k))
  }

  /** Folding one more neighbour of a list into the running maximum. */
  lemma MaxContributionSnoc(m: map<Cell, real>, ns: seq<Neighbour>, j: int, k: real)
    requires 0 <= j < |ns|
    ensures MaxContribution(m, ns[..j + 1], k) == L.Max(MaxContribution(m, ns[..j], k), Contribution(m, ns[j], k))
  {
    assert ns[..j + 1][..j] == ns[..j] && ns[..j + 1][j] == ns[j];
  }

  /** The fold bounds every neighbour's contribution from above. */
  lemma {:induction false} MaxContributionIsUpperBound(m: map<Cell, real>, ns: seq<Neighbour>, k: real)
    ensures forall i :: 0 <= i < |ns| ==> Contribution(m, ns[i], k) <= MaxContribution(m, ns, k)
    decreases |ns|
  {
    if ns != [] {
      var init := ns[..|ns| - 1];
      MaxContributionIsUpperBound(m, init, k);
      forall i | 0 <= i < |ns| - 1 ensures Contribution(m, ns[i], k) <= MaxContribution(m, ns, k) {
        assert init[i] == ns[i];
      }
    }
  }

  /** The fold is 0.0 or the contribution of one of the neighbours. */
  lemma {:induction false} MaxContributionIsAttained(m: map<Cell, real>, ns: seq<Neighbour>, k: real)
    ensures var r := MaxContribution(m, ns, k);
      r == 0.0 || exists i :: 0 <= i < |ns| && r == Contribution(m, ns[i], k)
    decreases |ns|
  {
    if ns != [] {
      var init := ns[..|ns| - 1];
      MaxContributionIsAttained(m, init, k);
      var best := MaxContribution(m, init, k);
      var last := Contribution(m, ns[|ns| - 1], k);
      if best > last && best != 0.0 {
        var i :| 0 <= i < |init| && best == Contribution(m, init[i], k);
        assert init[i] == ns[i];
      }
    }
  }

  /** The value a cell takes in one diffusion pass over the store `m`. */
  function DiffusedValue(m: map<Cell, real>, p: Cell, width: int, height: int, isBlocked: Cell -> bool,
                         momentum: real, k: real): real
  {
    L.Lerp(Get(m, p), MaxContribution(m, GridNeighbours(p, width, height, isBlocked), k), momentum)
  }

  /**
    `r` is what one diffusion pass over `m` produces: the same keys, and at
    each of them the diffused value, every value read from `m`.
   */
  ghost predicate Diffuses(r: map<Cell, real>, m: map<Cell, real>, width: int, height: int,
                           isBlocked: Cell -> bool, momentum: real, k: real)
  {
    r.Keys == m.Keys &&
    forall p {:trigger DiffusedValue(m, p, width, height, isBlocked, momentum, k)} ::
      p in r ==> r[p] == DiffusedValue(m, p, width, height, isBlocked, momentum, k)
  }

  /** A pass has one outcome: two stores that both are a pass over `m` are equal. */
  lemma DiffusionIsDetermined(r1: map<Cell, real>, r2: map<Cell, real>, m: map<Cell, real>, width: int, height: int,
                              isBlocked: Cell -> bool, momentum: real, k: real)
    requires Diffuses(r1, m, width, height, isBlocked, momentum, k)
    requires Diffuses(r2, m, width, height, isBlocked, momentum, k)
    ensures r1 == r2
  {
    forall p | p in r1 ensures r1[p] == r2[p] {
      assert r1[p] == DiffusedValue(m, p, width, height, isBlocked, momentum, k);
    }
  }

  lemma DecayedWithin(v: real, k: real, bound: real)
    requires 0.0 <= v <= bound && 0.0 < k <= 1.0
    ensures 0.0 <= v * k <= bound
  {
    assert v * (1.0 - k) >= 0.0;
  }

  /** With values in [0, bound] and 0 < k <= 1, the strongest contribution also lies in [0, bound]. */
  lemma ContributionBounded(m: map<Cell, real>, ns: seq<Neighbour>, k: real, bound: real)
    requires 0.0 < k <= 1.0 && 0.0 <= bound
    requires forall q :: q in m ==> 0.0 <= m[q] <= bound
    ensures 0.0 <= MaxContribution(m, ns, k) <= bound
  {
    MaxContributionIsAttained(m, ns, k);
    var r := MaxContribution(m, ns, k);
    if r != 0.0 {
      var i :| 0 <= i < |ns| && r == Contribution(m, ns[i], k);
      var v := Get(m, ns[i].0);
      assert 0.0 <= v <= bound;
      DecayedWithin(v, k, bound);
      assert r == v * k;
    }
  }

  /**
    A pass keeps values within [0, bound] when they start there, the momentum
    lies in [0, 1] and the decay factor in (0, 1].
   */
  lemma DiffusionStaysInBounds(r: map<Cell, real>, m: map<Cell, real>, width: int, height: int,
                               isBlocked: Cell -> bool, momentum: real, k: real, bound: real)
    requires Diffuses(r, m, width, height, isBlocked, momentum, k)
    requires 0.0 <= momentum <= 1.0 && 0.0 < k <= 1.0 && 0.0 <= bound
    requires forall q :: q in m ==> 0.0 <= m[q] <= bound
    ensures forall q :: q in r ==> 0.0 <= r[q] <= bound
  {
    forall q | q in r
      ensures 0.0 <= r[q] <= bound
    {
      assert r[q] == DiffusedValue(m, q, width, height, isBlocked, momentum, k);
      var best := MaxContribution(m, GridNeighbours(q, width, height, isBlocked), k);
      ContributionBounded(m, GridNeighbours(q, width, height, isBlocked), k, bound);
      L.LerpBetween(m[q], best, momentum);
    }
  }

  /** A cell without open neighbours decays towards 0: it keeps (1 - momentum) of its value. */
  lemma IsolatedCellDecays(m: map<Cell, real>, p: Cell, width: int, height: int, isBlocked: Cell -> bool,
                           momentum: real, k: real)
    requires forall n :: !Step(p, n, width, height, isBlocked)
    ensures DiffusedValue(m, p, width, height, isBlocked, momentum, k) == Get(m, p) * (1.0 - momentum)
  {
    forall c | c in L.Candidates(p) ensures !IsOpen(c, width, height, isBlocked) {
      assert !Step(p, c, width, height, isBlocked);
    }
    NoOpenCandidates(L.Candidates(p), width, height, isBlocked);
    assert GridNeighbours(p, width, height, isBlocked) == [];
  }

  /**
    The maps the operators return have a 0 x 0 grid, so no cell has an open
    neighbour there and one pass only scales every value by (1 - momentum).
   */
  lemma OperatorResultOnlyDecays(r: map<Cell, real>, m: map<Cell, real>, isBlocked: Cell -> bool, momentum: real, k: real)
    requires Diffuses(r, m, 0, 0, isBlocked, momentum, k)
    ensures forall p :: p in r ==> r[p] == m[p] * (1.0 - momentum)
  {
    forall p | p in r ensures r[p] == m[p] * (1.0 - momentum) {
      assert r[p] == DiffusedValue(m, p, 0, 0, isBlocked, momentum, k);
      IsolatedCellDecays(m, p, 0, 0, isBlocked, momentum, k);
    }
  }

  // ----- Map algebra ------------------------------------------------------

  /**
    a + b: a's keys hold a + b, b-only keys hold b, and (0, 0), the one cell
    the fresh result map registers for itself, holds 0.0 if neither has it.
    Read through the 0.0 default, the sum is cell-wise.
   */
  function Added(a: map<Cell, real>, b: map<Cell, real>): (r: map<Cell, real>)
    ensures r.Keys == a.Keys + b.Keys + {(0, 0)}
    ensures forall p :: Get(r, p) == Get(a, p) + Get(b, p)
  {
    map p | p in a.Keys + b.Keys + {(0, 0)} :: if p in a then a[p] + Get(b, p) else Get(b, p)
  }

  /** a - b as written: a's keys hold a - b, but b-only keys hold b, not -b. */
  function SubtractedAsWritten(a: map<Cell, real>, b: map<Cell, real>): (r: map<Cell, real>)
    ensures r.Keys == a.Keys + b.Keys + {(0, 0)}
    ensures forall p :: p in a ==> Get(r, p) == Get(a, p) - Get(b, p)
    ensures forall p :: p !in a ==> Get(r, p) == Get(b, p)
  {
    map p | p in a.Keys + b.Keys + {(0, 0)} :: if p in a then a[p] - Get(b, p) else Get(b, p)
  }

  /** The subtraction as written adds the right operand where only it has a value. */
  lemma SubtractionAddsRightOnlyKeys()
    ensures var a, b := map[], map[(1, 1) := 1.0];
      Get(SubtractedAsWritten(a, b), (1, 1)) == 1.0 != Get(a, (1, 1)) - Get(b, (1, 1))
  {
  }

  /** a - b as intended: the cell-wise difference on the union of keys. */
  function Difference(a: map<Cell, real>, b: map<Cell, real>): (r: map<Cell, real>)
    ensures r.Keys == a.Keys + b.Keys + {(0, 0)}
    ensures forall p :: Get(r, p) == Get(a, p) - Get(b, p)
  {
    map p | p in a.Keys + b.Keys + {(0, 0)} :: if p in a then a[p] - Get(b, p) else -Get(b, p)
  }

  /** Adding b back to a - b reads a at every cell. */
  lemma DifferenceUndoesAddition(a: map<Cell, real>, b: map<Cell, real>)
    ensures forall p :: Get(Added(Difference(a, b), b), p) == Get(a, p)
  {
  }

  /** The two subtractions agree exactly where the right operand has no value outside the left's keys. */
  lemma SubtractionAsWrittenAgreesOnLeftKeys(a: map<Cell, real>, b: map<Cell, real>)
    ensures SubtractedAsWritten(a, b) == Difference(a, b) <==> forall p :: p in b && p !in a ==> b[p] == 0.0
  {
    var w, d := SubtractedAsWritten(a, b), Difference(a, b);
    if w == d {
      forall p | p in b && p !in a ensures b[p] == 0.0 {
        assert w[p] == d[p];
      }
    }
  }

  /** a * s: a's keys, and (0, 0), each scaled by s. */
  function Scaled(a: map<Cell, real>, s: real): (r: map<Cell, real>)
    ensures r.Keys == a.Keys + {(0, 0)}
    ensures forall p :: Get(r, p) == Get(a, p) * s
  {
    map p | p in a.Keys + {(0, 0)} :: if p in a then a[p] * s else 0.0
  }

  /**
    The registration loop of the constructor: (0, 0) and every cell
    reachable from it through open 4-neighbours get value 0.0, found with a
    last-in first-out worklist.
   */
  method Flood(width: int, height: int, isBlocked: Cell -> bool) returns (registered: map<Cell, real>)
    ensures forall c :: c in registered <==> Reachable(c, width, height, isBlocked)
    ensures forall c :: c in registered ==> registered[c] == 0.0
  {
    var queue: seq<Cell> := [(0, 0)];
    var checked: set<Cell> := {};
    registered := map[];
    assert IsWalk([(0, 0)], width, height, isBlocked);
    ghost var u := ReachableBound(width, height, isBlocked);
    while queue != []
      invariant registered.Keys == checked
      invariant forall c :: c in registered ==> registered[c] == 0.0
      invariant FloodInvariant(checked, queue, width, height, isBlocked)
      invariant |checked| <= |u|
      decreases |u| - |checked|, TopChecked(queue, checked), |queue|
    {
      ghost var checked0, queue0 := checked, queue;
      var position := queue[|queue| - 1];
      queue := queue[..|queue| - 1];
      registered := registered[position := 0.0];
      checked := checked + {position};
      queue := queue + Unvisited(GridNeighbours(position, width, height, isBlocked), checked);
      FloodStep(checked0, queue0, checked, queue, u, width, height, isBlocked);
    }
    ClosedSetHoldsReachable(checked, width, height, isBlocked);
  }

  // ----- The operators' loops over the stores ----------------------------

  /**
    The body of self + other, run on the store of a fresh default map
    (`blank`, which holds only (0, 0) := 0.0): first every key of `a` gets
    a's value plus b's (0.0 where b has none), then every key only `b` has
    gets b's value.
   */
  method AddStores(blank: map<Cell, real>, a: map<Cell, real>, b: map<Cell, real>) returns (sum: map<Cell, real>)
    requires blank == map[(0, 0) := 0.0]
    ensures sum == Added(a, b)
  {
    sum := blank;
    var keys := a.Keys;
    while keys != {}
      invariant keys <= a.Keys
      invariant forall p :: p in sum <==> p == (0, 0) || (p in a && p !in keys)
      invariant forall p :: p in sum ==> sum[p] == if p in a && p !in keys then a[p] + Get(b, p) else 0.0
      decreases keys
    {
      var key :| key in keys;
      sum := sum[key := a[key] + Get(b, key)];
      keys := keys - {key};
    }
    var otherKeys := b.Keys;
    while otherKeys != {}
      invariant otherKeys <= b.Keys
      invariant forall p :: p in sum <==> p == (0, 0) || p in a || (p in b && p !in otherKeys)
      invariant forall p :: p in sum ==> sum[p] == if p in a || p !in otherKeys then Get(a, p) + Get(b, p) else 0.0
      decreases otherKeys
    {
      var key :| key in otherKeys;
      if key !in a {
        sum := sum[key := b[key]];
      }
      otherKeys := otherKeys - {key};
    }
    forall p | p in sum ensures sum[p] == Added(a, b)[p] {
      assert Get(Added(a, b), p) == Get(a, p) + Get(b, p);
    }
  }

  /**
    The body of self - other, corrected, on the store of a fresh default
    map: every key of `a` gets a's value minus b's, then every key only `b`
    has gets the negated b value (the source stores b's value unnegated
    there, see SubtractedAsWritten).
   */
  method SubtractStores(blank: map<Cell, real>, a: map<Cell, real>, b: map<Cell, real>) returns (diff: map<Cell, real>)
    requires blank == map[(0, 0) := 0.0]
    ensures diff == Difference(a, b)
  {
    diff := blank;
    var keys := a.Keys;
    while keys != {}
      invariant keys <= a.Keys
      invariant forall p :: p in diff <==> p == (0, 0) || (p in a && p !in keys)
      invariant forall p :: p in diff ==> diff[p] == if p in a && p !in keys then a[p] - Get(b, p) else 0.0
      decreases keys
    {
      var key :| key in keys;
      diff := diff[key := a[key] - Get(b, key)];
      keys := keys - {key};
    }
    var otherKeys := b.Keys;
    while otherKeys != {}
      invariant otherKeys <= b.Keys
      invariant forall p :: p in diff <==> p == (0, 0) || p in a || (p in b && p !in otherKeys)
      invariant forall p :: p in diff ==> diff[p] == if p in a || p !in otherKeys then Get(a, p) - Get(b, p) else 0.0
      decreases otherKeys
    {
      var key :| key in otherKeys;
      if key !in a {
        diff := diff[key := -b[key]];
      }
      otherKeys := otherKeys - {key};
    }
    forall p | p in diff ensures diff[p] == Difference(a, b)[p] {
      assert Get(Difference(a, b), p) == Get(a, p) - Get(b, p);
    }
  }

  /** The body of self * scalar, on the store of a fresh default map: every key of `a` gets a's value times `scalar`. */
  method ScaleStore(blank: map<Cell, real>, a: map<Cell, real>, scalar: real) returns (product: map<Cell, real>)
    requires blank == map[(0, 0) := 0.0]
    ensures product == Scaled(a, scalar)
  {
    product := blank;
    var keys := a.Keys;
    while keys != {}
      invariant keys <= a.Keys
      invariant forall p :: p in product <==> p == (0, 0) || (p in a && p !in keys)
      invariant forall p :: p in product ==> product[p] == if p in a && p !in keys then a[p] * scalar else 0.0
      decreases keys
    {
      var key :| key in keys;
      product := product[key := a[key] * scalar];
      keys := keys - {key};
    }
    forall p | p in product ensures product[p] == Scaled(a, scalar)[p] {
      assert Get(Scaled(a, scalar), p) == Get(a, p) * scalar;
    }
  }

  // ----- The map object ---------------------------------------------------

  class GridInfluenceMap {
    var decay: real
    var momentum: real
    var influence: map<Cell, real>
    var width: int
    var height: int
    var isBlocked: Cell -> bool

    /**
      Registers, with value 0.0, (0, 0) and every cell reachable from it
      through open 4-neighbours, using a last-in first-out worklist.
      The default callback here takes a position; the source's takes two
      coordinates, see DefaultCallbackRaises.
     */
    constructor (decay: real := 0.2, momentum: real := 0.5, width: int := 0, height: int := 0,
                 isBlocked: Cell -> bool := c => false)
      ensures this.decay == decay && this.momentum == momentum
      ensures this.width == width && this.height == height && this.isBlocked == isBlocked
      ensures forall c :: c in influence <==> Reachable(c, width, height, isBlocked)
      ensures forall c :: c in influence ==> influence[c] == 0.0
    {
      this.decay := decay;
      this.momentum := momentum;
      this.influence := map[];
      this.width := width;
      this.height := height;
      this.isBlocked := isBlocked;
      new;
      influence := Flood(width, height, isBlocked);
    }

    /** set_influence: overwrites (or registers) the value at `p`. */
    method SetInfluence(p: Cell, v: real)
      modifies this`influence
      ensures influence == old(influence)[p := v]
      ensures GetInfluence(p) == v
    {
      influence := influence[p := v];
    }

    /** get_influence and indexing: the stored value, or 0.0 at an unset cell. */
    function GetInfluence(p: Cell): (r: real)
      reads this
      ensures p in influence ==> r == influence[p]
      ensures p !in influence ==> r == 0.0
    {
      Get(influence, p)
    }

    /** The inner loop of update_map: the strongest decayed neighbour of `position`, or 0.0. */
    method MaxNeighbourInfluence(position: Cell, k: real) returns (maxInfl: real)
      ensures maxInfl == MaxContribution(influence, GridNeighbours(position, width, height, isBlocked), k)
    {
      maxInfl := 0.0;
      var ns := GridNeighbours(position, width, height, isBlocked);
      for j := 0 to |ns|
        invariant maxInfl == MaxContribution(influence, ns[..j], k)
      {
        // exp(-distance * decay), with distance ns[j].1 == 1, is k
        var contribution := GetInfluence(ns[j].0) * k;
        assert contribution == Contribution(influence, ns[j], k);
        MaxContributionSnoc(influence, ns, j, k);
        maxInfl := L.Max(maxInfl, contribution);
      }
      assert ns[..|ns|] == ns;
    }

    /**
      update_map(numTimes): every pass reads the unchanged store, so any
      positive count gives one pass, and a count of 0 or less replaces the
      store with an empty one.
     */
    method UpdateMap(k: real, numTimes: int := 1)
      requires 0.0 < k
      modifies this`influence
      ensures numTimes <= 0 ==> influence == map[] && forall p :: GetInfluence(p) == 0.0
      ensures numTimes > 0 ==> Diffuses(influence, old(influence), width, height, isBlocked, momentum, k)
    {
      var newInfluence: map<Cell, real> := map[];
      var i := 0;
      while i < numTimes
        invariant influence == old(influence)
        invariant 0 <= i && (i <= numTimes || i == 0) && (i == 0 ==> newInfluence == map[])
        invariant i > 0 ==> Diffuses(newInfluence, influence, width, height, isBlocked, momentum, k)
        decreases numTimes - i
      {
        var pending := influence.Keys;
        while pending != {}
          invariant influence == old(influence)
          invariant pending <= influence.Keys
          invariant newInfluence.Keys <= influence.Keys
          invariant influence.Keys - pending <= newInfluence.Keys
          invariant forall p {:trigger DiffusedValue(influence, p, width, height, isBlocked, momentum, k)} :: p in newInfluence ==>
            newInfluence[p] == DiffusedValue(influence, p, width, height, isBlocked, momentum, k)
          decreases pending
        {
          var position :| position in pending;
          var maxInfl := MaxNeighbourInfluence(position, k);
          newInfluence := newInfluence[position := L.Lerp(GetInfluence(position), maxInfl, momentum)];
          pending := pending - {position};
        }
        i := i + 1;
      }
      influence := newInfluence;
    }

    /**
      A map built with every default, as `self.__class__()` builds one: on
      the 0 x 0 grid only (0, 0) is registered.
     */
    static method Blank() returns (r: GridInfluenceMap)
      ensures fresh(r)
      ensures r.influence == map[(0, 0) := 0.0]
      ensures r.width == 0 && r.height == 0 && r.decay == 0.2 && r.momentum == 0.5
      ensures forall c :: !r.isBlocked(c)
    {
      r := new GridInfluenceMap();
      EmptyGridReachesOnlyOrigin(r.width, r.height, r.isBlocked);
      assert r.influence == map[(0, 0) := 0.0];
    }

    /** self + other (see AddStores), with self's blockage callback. */
    method Plus(other: GridInfluenceMap) returns (r: GridInfluenceMap)
      ensures fresh(r)
      ensures r.influence == Added(influence, other.influence)
      ensures r.isBlocked == isBlocked
      ensures r.width == 0 && r.height == 0 && r.decay == 0.2 && r.momentum == 0.5
    {
      r := Blank();
      r.influence := AddStores(r.influence, influence, other.influence);
      r.isBlocked := isBlocked;
    }

    /** self - other, with the right-only keys negated (see SubtractStores), and self's blockage callback. */
    method Minus(other: GridInfluenceMap) returns (r: GridInfluenceMap)
      ensures fresh(r)
      ensures r.influence == Difference(influence, other.influence)
      ensures r.isBlocked == isBlocked
      ensures r.width == 0 && r.height == 0 && r.decay == 0.2 && r.momentum == 0.5
    {
      r := Blank();
      r.influence := SubtractStores(r.influence, influence, other.influence);
      r.isBlocked := isBlocked;
    }

    /** self * scalar (see ScaleStore), with self's blockage callback. */
    method Times(scalar: real) returns (r: GridInfluenceMap)
      ensures fresh(r)
      ensures r.influence == Scaled(influence, scalar)
      ensures r.isBlocked == isBlocked
      ensures r.width == 0 && r.height == 0 && r.decay == 0.2 && r.momentum == 0.5
    {
      r := Blank();
      r.influence := ScaleStore(r.influence, influence, scalar);
      r.isBlocked := isBlocked;
    }
  }
}
