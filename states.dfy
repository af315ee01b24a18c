/**
  The game-state layer of starkai/states.py: the eight moves a bot can take,
  the list of blocked cells read off the level's block heights, the legal-move
  filter (inside the level, not blocked, not occupied by a living teammate),
  and the floored bot state used as a Q-learning state.

  The commander the source reads its level and team from is replaced by the
  values it supplies: the block heights, the level's width and height (fixed
  at construction) and, at each call, the team members.
 */
module States {
  import opened Grid

  /** N, S, E, W, NE, NW, SE, SW: the moves in the order the filter tries them. */
  const ACTIONS: seq<Action> := [(0, 1), (0, -1), (1, 0), (-1, 0), (1, 1), (-1, 1), (1, -1), (-1, -1)]

  /** A teammate as the legal-move filter sees it: a continuous position and a health. */
  datatype Bot = Bot(position: Point, health: real)

  // ----- Blocked cells ----------------------------------------------------

  /** The level marks (x, y) as blocked: it is inside the height table and its height is positive. */
  predicate HeightBlocked(heights: seq<seq<real>>, c: Cell)
  {
    0 <= c.0 < |heights| && 0 <= c.1 < |heights[c.0]| && heights[c.0][c.1] > 0.0
  }

  /** The cells (x, y) of one column `ylist` with a positive height, by increasing y. */
  function RowBlocked(x: int, ylist: seq<real>): (r: seq<Cell>)
    ensures forall c :: c in r <==> c.0 == x && 0 <= c.1 < |ylist| && ylist[c.1] > 0.0
    decreases |ylist|
  {
    if ylist == [] then []
    else
      var y := |ylist| - 1;
      RowBlocked(x, ylist[..y]) + (if ylist[y] > 0.0 then [(x, y)] else [])
  }

  /** The blocked cells of the whole table, column by column: the list the constructor builds. */
  function BlockedCells(heights: seq<seq<real>>): (r: seq<Cell>)
    ensures forall c :: c in r <==> HeightBlocked(heights, c)
    decreases |heights|
  {
    if heights == [] then []
    else
      var x := |heights| - 1;
      assert forall c :: HeightBlocked(heights[..x], c) <==> HeightBlocked(heights, c) && c.0 < x;
      BlockedCells(heights[..x]) + RowBlocked(x, heights[x])
  }

  /** Row-major order: by x, then by y. */
  predicate Before(a: Cell, b: Cell)
  {
    a.0 < b.0 || (a.0 == b.0 && a.1 < b.1)
  }

  predicate RowMajor(s: seq<Cell>)
  {
    forall i, j :: 0 <= i < j < |s| ==> Before(s[i], s[j])
  }

  /** Two row-major lists, every cell of the first before every cell of the second, concatenate to one. */
  lemma RowMajorAppend(s: seq<Cell>, t: seq<Cell>)
    requires RowMajor(s) && RowMajor(t)
    requires forall a, b :: a in s && b in t ==> Before(a, b)
    ensures RowMajor(s + t)
  {
    forall i, j | 0 <= i < j < |s + t| ensures Before((s + t)[i], (s + t)[j]) {
      if j < |s| {
        assert (s + t)[i] == s[i] && (s + t)[j] == s[j];
      } else if i < |s| {
        assert (s + t)[i] == s[i] && (s + t)[j] == t[j - |s|];
      } else {
        assert (s + t)[i] == t[i - |s|] && (s + t)[j] == t[j - |s|];
      }
    }
  }

  lemma {:induction false} RowBlockedRowMajor(x: int, ylist: seq<real>)
    ensures RowMajor(RowBlocked(x, ylist))
    decreases |ylist|
  {
    if ylist != [] {
      var y := |ylist| - 1;
      RowBlockedRowMajor(x, ylist[..y]);
      RowMajorAppend(RowBlocked(x, ylist[..y]), if ylist[y] > 0.0 then [(x, y)] else []);
    }
  }

  /** The constructor's list is in row-major order, hence free of duplicates. */
  lemma {:induction false} BlockedCellsRowMajor(heights: seq<seq<real>>)
    ensures RowMajor(BlockedCells(heights))
    ensures NoDuplicates(BlockedCells(heights))
    decreases |heights|
  {
    if heights != [] {
      var x := |heights| - 1;
      BlockedCellsRowMajor(heights[..x]);
      RowBlockedRowMajor(x, heights[x]);
      RowMajorAppend(BlockedCells(heights[..x]), RowBlocked(x, heights[x]));
    }
    var r := BlockedCells(heights);
    forall i, j | 0 <= i < j < |r| ensures r[i] != r[j] {
      assert Before(r[i], r[j]);
    }
  }

  /** The constructor's outer loop: one column after another. */
  method CollectBlocked(heights: seq<seq<real>>) returns (blocked: seq<Cell>)
    ensures blocked == BlockedCells(heights)
  {
    blocked := [];
    for x := 0 to |heights|
      invariant blocked == BlockedCells(heights[..x])
    {
      blocked := CollectColumn(blocked, x, heights[x]);
      assert heights[..x + 1][..x] == heights[..x] && heights[..x + 1][x] == heights[x];
    }
    assert heights[..|heights|] == heights;
  }

  /** The constructor's inner loop: appends (x, y) for each positive height of column x. */
  method CollectColumn(before: seq<Cell>, x: int, ylist: seq<real>) returns (blocked: seq<Cell>)
    ensures blocked == before + RowBlocked(x, ylist)
  {
    blocked := before;
    for y := 0 to |ylist|
      invariant blocked == before + RowBlocked(x, ylist[..y])
    {
      assert ylist[..y + 1][..y] == ylist[..y] && ylist[..y + 1][y] == ylist[y];
      if ylist[y] > 0.0 {
        assert before + RowBlocked(x, ylist[..y]) + [(x, y)] == before + (RowBlocked(x, ylist[..y]) + [(x, y)]);
        blocked := blocked + [(x, y)];
      }
    }
    assert ylist[..|ylist|] == ylist;
  }

  // ----- Occupancy --------------------------------------------------------

  /** Some teammate with positive health stands, floored, on `c`. */
  predicate Occupied(team: seq<Bot>, c: Cell)
  {
    exists i :: 0 <= i < |team| && team[i].health > 0.0 && FloorCell(team[i].position) == c
  }

  /** The inner loop of get_legal_actions: stops at the first living teammate standing on `c`. */
  method FindOccupant(team: seq<Bot>, c: Cell) returns (occupied: bool)
    ensures occupied <==> Occupied(team, c)
  {
    occupied := false;
    for j := 0 to |team|
      invariant !occupied
      invariant forall k :: 0 <= k < j ==> !(team[k].health > 0.0 && FloorCell(team[k].position) == c)
    {
      if team[j].health > 0.0 {
        if FloorCell(team[j].position) == c {
          occupied := true;
          break;
        }
      }
    }
  }

  /** A teammate with health 0 or less never makes a cell occupied. */
  lemma DeadTeammateIgnored(team: seq<Bot>, b: Bot, c: Cell)
    requires b.health <= 0.0
    ensures Occupied(team + [b], c) <==> Occupied(team, c)
  {
    if Occupied(team + [b], c) {
      var i :| 0 <= i < |team + [b]| && (team + [b])[i].health > 0.0 && FloorCell((team + [b])[i].position) == c;
      assert i < |team| && (team + [b])[i] == team[i];
    }
    if Occupied(team, c) {
      var i :| 0 <= i < |team| && team[i].health > 0.0 && FloorCell(team[i].position) == c;
      assert (team + [b])[i] == team[i];
    }
  }

  // ----- The game state ---------------------------------------------------

  class GameState {
    /** The level's block heights, indexed [x][y]. */
    var heights: seq<seq<real>>
    var width: int
    var height: int
    var blocked: seq<Cell>

    /** Collects, column by column, every cell whose block height is positive. */
    constructor (heights: seq<seq<real>>, width: int, height: int)
      ensures this.heights == heights && this.width == width && this.height == height
      ensures blocked == BlockedCells(heights)
    {
      this.heights := heights;
      this.width := width;
      this.height := height;
      var cells := CollectBlocked(heights);
      blocked := cells;
    }

    /** The list holds what the constructor built from the current height table. */
    ghost predicate Valid()
      reads this
    {
      blocked == BlockedCells(heights)
    }

    /** is_blocked with one position argument: membership in the blocked list. */
    function IsBlocked(c: Cell): (r: bool)
      reads this
      ensures Valid() ==> (r <==> HeightBlocked(heights, c))
    {
      c in blocked
    }

    /** is_blocked with two coordinates: the same answer as for the position (x, y). */
    function IsBlockedAt(x: int, y: int): (r: bool)
      reads this
      ensures r == IsBlocked((x, y))
      ensures Valid() ==> (r <==> HeightBlocked(heights, (x, y)))
    {
      (x, y) in blocked
    }

    /** The move `a` from `p` lands inside the level, on a cell neither blocked nor occupied. */
    predicate Allowed(p: Point, team: seq<Bot>, a: Action)
      reads this
    {
      var t := Target(p, a);
      0 <= t.0 < width && 0 <= t.1 < height && !IsBlocked(t) && !Occupied(team, t)
    }

    /** The allowed moves among `acts`, in their order. */
    function LegalAmong(p: Point, team: seq<Bot>, acts: seq<Action>): (r: seq<Action>)
      reads this
      ensures IsSubsequence(r, acts)
      ensures forall a :: a in r <==> a in acts && Allowed(p, team, a)
      decreases |acts|
    {
      if acts == [] then []
      else
        var init := acts[..|acts| - 1];
        var last := acts[|acts| - 1];
        var kept := LegalAmong(p, team, init);
        assert acts == init + [last];
        SubsequenceExtend(kept, init, last);
        if Allowed(p, team, last) then kept + [last] else kept
    }

    /**
      get_legal_actions for a bot at `p` (its state's [0] and [1]) with the
      team members `team`: the moves of ACTIONS, in order, whose floored
      target lies inside the level, is not blocked and is not the floored
      position of a teammate with positive health.
     */
    method GetLegalActions(p: Point, team: seq<Bot>) returns (actions: seq<Action>)
      ensures actions == LegalAmong(p, team, ACTIONS)
    {
      actions := [];
      for i := 0 to |ACTIONS|
        invariant actions == LegalAmong(p, team, ACTIONS[..i])
      {
        var action := ACTIONS[i];
        assert ACTIONS[..i + 1][..i] == ACTIONS[..i] && ACTIONS[..i + 1][i] == action;
        var newPos := Target(p, action);
        if newPos.0 < 0 || newPos.1 < 0 {
          continue;
        }
        if newPos.0 >= width || newPos.1 >= height {
          continue;
        }
        var occupied := FindOccupant(team, newPos);
        if !IsBlocked(newPos) && !occupied {
          actions := actions + [action];
        }
      }
      assert ACTIONS[..|ACTIONS|] == ACTIONS;
    }

    /**
      The legal moves are a duplicate-free subsequence of ACTIONS, at most
      eight; a move is among them exactly when it is allowed, so the list is
      empty exactly when no move is allowed.
     */
    lemma LegalActionsSpec(p: Point, team: seq<Bot>)
      ensures var r := LegalAmong(p, team, ACTIONS);
        && IsSubsequence(r, ACTIONS)
        && NoDuplicates(r)
        && |r| <= 8
        && (forall a :: a in r <==> a in ACTIONS && Allowed(p, team, a))
        && (r == [] <==> forall a :: a in ACTIONS ==> !Allowed(p, team, a))
    {
      var r := LegalAmong(p, team, ACTIONS);
      SubsequenceMembers(r, ACTIONS);
      SubsequenceNoDuplicates(r, ACTIONS);
      if r != [] {
        assert r[0] in r;
      }
    }

    /** Adding a teammate with health 0 or less to the team changes no legal-move list. */
    lemma {:induction false} DeadTeammateKeepsLegalMoves(p: Point, team: seq<Bot>, b: Bot, acts: seq<Action>)
      requires b.health <= 0.0
      ensures LegalAmong(p, team + [b], acts) == LegalAmong(p, team, acts)
      decreases |acts|
    {
      if acts != [] {
        var last := acts[|acts| - 1];
        DeadTeammateKeepsLegalMoves(p, team, b, acts[..|acts| - 1]);
        DeadTeammateIgnored(team, b, Target(p, last));
      }
    }
  }

  // ----- Bot states -------------------------------------------------------

  /** A Q-learning state: only the bot's floored position. */
  datatype BotState = BotState(position: Cell)

  /** BotState(x, y): the state of a bot at the continuous position (x, y). */
  function NewBotState(x: real, y: real): (s: BotState)
    ensures s.position.0 as real <= x < s.position.0 as real + 1.0
    ensures s.position.1 as real <= y < s.position.1 as real + 1.0
  {
    BotState(FloorCell((x, y)))
  }

  /** Two positions give equal states exactly when they lie in the same unit cell. */
  lemma BotStateEquality(x1: real, y1: real, x2: real, y2: real)
    ensures NewBotState(x1, y1) == NewBotState(x2, y2) <==> x1.Floor == x2.Floor && y1.Floor == y2.Floor
  {
  }

  /**
    state[item], indexing the position pair as a Python tuple: 0 and -2 give
    x, 1 and -1 give y, and any other index raises IndexError (None).
   */
  function Index(s: BotState, item: int): (r: Option<int>)
    ensures r.Some? <==> -2 <= item <= 1
    ensures (item == 0 || item == -2) ==> r == Some(s.position.0)
    ensures (item == 1 || item == -1) ==> r == Some(s.position.1)
  {
    if item == 0 || item == -2 then Some(s.position.0)
    else if item == 1 || item == -1 then Some(s.position.1)
    else None
  }

  /** The floored position of a bot state is the cell its moves start from: Target adds the move exactly. */
  lemma TargetFromBotState(s: BotState, a: Action)
    ensures Target((s.position.0 as real, s.position.1 as real), a) == Shift(s.position, a)
  {
  }
}
