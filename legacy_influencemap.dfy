/**
  The older, top-level revision of the influence map (influencemap.py): the
  linear interpolation that diffusion blends with, a store that raises on an
  unset cell, a replaceable list of blocked cells, and a neighbour filter whose
  bounds are inclusive.

  The revision's constructor raises a NameError (it reads an undefined name),
  so the class below declares none: its methods are modelled on a map whose
  fields hold any values.
 */
module LegacyInfluenceMap {
  import opened Grid

  function Min(a: real, b: real): real { if a <= b then a else b }
  function Max(a: real, b: real): real { if a <= b then b else a }

  /** Linear interpolation from `x` (at s = 0) to `y` (at s = 1). */
  function Lerp(x: real, y: real, s: real): (r: real)
    ensures s == 0.0 ==> r == x
    ensures s == 1.0 ==> r == y
    ensures x == y ==> r == x
  {
    x * (1.0 - s) + y * s
  }

  /** For a weight in [0, 1] the interpolation stays between its two ends. */
  lemma LerpBetween(x: real, y: real, s: real)
    requires 0.0 <= s <= 1.0
    ensures Min(x, y) <= Lerp(x, y, s) <= Max(x, y)
  {
    ScaleBetween(y - x, s);
    assert Lerp(x, y, s) == x + (y - x) * s;
  }

  lemma ScaleBetween(d: real, s: real)
    ensures 0.0 <= s <= 1.0 && 0.0 <= d ==> 0.0 <= d * s <= d
    ensures 0.0 <= s <= 1.0 && d <= 0.0 ==> d <= d * s <= 0.0
  {
    if 0.0 <= s <= 1.0 {
      if 0.0 <= d {
        assert d * s <= d * 1.0;
      } else {
        assert d * 1.0 <= d * s;
      }
    }
  }

  /** The four unit offsets, in the order the neighbour filter tries them: +x, -x, +y, -y. */
  const OFFSETS: seq<Action> := [(1, 0), (-1, 0), (0, 1), (0, -1)]

  /** The four cells next to `p`, in the order of OFFSETS. */
  function Candidates(p: Cell): (r: seq<Cell>)
    ensures |r| == 4 && NoDuplicates(r)
    ensures forall i :: 0 <= i < 4 ==> r[i] == Shift(p, OFFSETS[i]) && Adjacent(p, r[i])
    ensures forall n :: n in r <==> Adjacent(p, n)
  {
    [Shift(p, OFFSETS[0]), Shift(p, OFFSETS[1]), Shift(p, OFFSETS[2]), Shift(p, OFFSETS[3])]
  }

  /** The acceptance test of this revision: not listed as blocked, 0 <= x <= width, 0 <= y <= height. */
  predicate InclusiveOpen(c: Cell, width: int, height: int, blocked: seq<Cell>)
  {
    c !in blocked && 0 <= c.0 <= width && 0 <= c.1 <= height
  }

  /** The candidates among `cs` that pass the inclusive test, in order. */
  function InclusiveFilter(cs: seq<Cell>, width: int, height: int, blocked: seq<Cell>): (r: seq<Cell>)
    ensures IsSubsequence(r, cs)
    ensures forall c :: c in r <==> c in cs && InclusiveOpen(c, width, height, blocked)
    decreases |cs|
  {
    if cs == [] then []
    else
      var init := cs[..|cs| - 1];
      var last := cs[|cs| - 1];
      var kept := InclusiveFilter(init, width, height, blocked);
      assert cs == init + [last];
      SubsequenceExtend(kept, init, last);
      if InclusiveOpen(last, width, height, blocked) then kept + [last] else kept
  }

  /** What this revision's neighbour filter returns for `p`. */
  function InclusiveNeighbours(p: Cell, width: int, height: int, blocked: seq<Cell>): seq<Cell>
  {
    InclusiveFilter(Candidates(p), width, height, blocked)
  }

  lemma InclusiveNeighboursFacts(p: Cell, width: int, height: int, blocked: seq<Cell>)
    ensures var r := InclusiveNeighbours(p, width, height, blocked);
      && |r| <= 4
      && IsSubsequence(r, Candidates(p))
      && forall n :: n in r <==> Adjacent(p, n) && InclusiveOpen(n, width, height, blocked)
  {
    SubsequenceMembers(InclusiveNeighbours(p, width, height, blocked), Candidates(p));
  }

  class GridInfluenceMap {
    var decay: real
    var momentum: real
    var influence: map<Cell, real>
    var width: int
    var height: int
    var blocked: seq<Cell>

    /** Overwrites (or registers) the value stored at `p`. */
    method SetInfluence(p: Cell, v: real)
      modifies this`influence
      ensures influence == old(influence)[p := v]
      ensures GetInfluence(p) == Some(v)
    {
      influence := influence[p := v];
    }

    /** The stored value; None stands for the KeyError raised at an unset cell. */
    function GetInfluence(p: Cell): (r: Option<real>)
      reads this
      ensures r.Some? <==> p in influence
      ensures r.Some? ==> r.value == influence[p]
    {
      if p in influence then Some(influence[p]) else None
    }

    /** Replaces the list of blocked cells wholesale. */
    method SetBlocked(cells: seq<Cell>)
      modifies this`blocked
      ensures blocked == cells
    {
      blocked := cells;
    }

    /** The unblocked cells next to `p` whose coordinates lie within [0, width] x [0, height]. */
    method GetNeighbours(p: Cell) returns (neighbours: seq<Cell>)
      ensures neighbours == InclusiveNeighbours(p, width, height, blocked)
      ensures |neighbours| <= 4
      ensures IsSubsequence(neighbours, Candidates(p))
      ensures forall n :: n in neighbours <==> Adjacent(p, n) && InclusiveOpen(n, width, height, blocked)
    {
      neighbours := [];
      var cs := Candidates(p);
      for i := 0 to |OFFSETS|
        invariant neighbours == InclusiveFilter(cs[..i], width, height, blocked)
      {
        var newPos := Shift(p, OFFSETS[i]);
        assert newPos == cs[i] && cs[..i + 1][..i] == cs[..i] && cs[..i + 1][i] == cs[i];
        if newPos in blocked {
          continue;
        }
        if newPos.0 < 0 || newPos.0 > width {
          continue;
        }
        if newPos.1 < 0 || newPos.1 > height {
          continue;
        }
        neighbours := neighbours + [newPos];
      }
      assert cs[..|OFFSETS|] == cs;
      InclusiveNeighboursFacts(p, width, height, blocked);
    }
  }

  /**
    The inclusive bounds admit cells one past the grid: on a 1 x 1 grid the
    only cell (0, 0) is given the neighbours (1, 0) and (0, 1), neither of
    which is a cell of the grid [0, 1) x [0, 1).
   */
  lemma InclusiveBoundsLeaveGrid()
    ensures (1, 0) in InclusiveNeighbours((0, 0), 1, 1, []) && (0, 1) in InclusiveNeighbours((0, 0), 1, 1, [])
    ensures exists n :: n in InclusiveNeighbours((0, 0), 1, 1, []) && !(0 <= n.0 < 1 && 0 <= n.1 < 1)
  {
    InclusiveNeighboursFacts((0, 0), 1, 1, []);
    assert Adjacent((0, 0), (1, 0)) && Adjacent((0, 0), (0, 1));
  }
}
