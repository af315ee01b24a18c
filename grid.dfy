/**
  Shared vocabulary of the decision-support layer: integer grid cells, move
  vectors, continuous world positions, the floor that turns a position into a
  cell, and the order-preserving subsequence relation used to state that a
  filter over a fixed list of moves keeps that list's order.
 */
module Grid {

  /** An integer grid coordinate (x, y). */
  type Cell = (int, int)

  /** A move vector (dx, dy). */
  type Action = (int, int)

  /** A continuous world position (x, y). */
  type Point = (real, real)

  datatype Option<T> = None | Some(value: T)

  /** The cell that contains the continuous position `p`: (floor(x), floor(y)). */
  function FloorCell(p: Point): (c: Cell)
    ensures c.0 as real <= p.0 < c.0 as real + 1.0
    ensures c.1 as real <= p.1 < c.1 as real + 1.0
  {
    (p.0.Floor, p.1.Floor)
  }

  /** The cell a move `a` from position `p` lands in: (floor(x + dx), floor(y + dy)). */
  function Target(p: Point, a: Action): (c: Cell)
    ensures c.0 as real <= p.0 + a.0 as real < c.0 as real + 1.0
    ensures c.1 as real <= p.1 + a.1 as real < c.1 as real + 1.0
  {
    FloorCell((p.0 + a.0 as real, p.1 + a.1 as real))
  }

  /** The cell `c` displaced by the vector `d`. */
  function Shift(c: Cell, d: Action): Cell
  {
    (c.0 + d.0, c.1 + d.1)
  }

  /** `c` and `n` differ by exactly one unit on exactly one axis. */
  predicate Adjacent(c: Cell, n: Cell)
  {
    (n.1 == c.1 && (n.0 == c.0 + 1 || n.0 == c.0 - 1)) ||
    (n.0 == c.0 && (n.1 == c.1 + 1 || n.1 == c.1 - 1))
  }

  predicate NoDuplicates<T(==)>(s: seq<T>)
  {
    forall i, j :: 0 <= i < j < |s| ==> s[i] != s[j]
  }

  /** `s` is `t` with some elements left out, the remaining ones in `t`'s order. */
  ghost predicate IsSubsequence<T>(s: seq<T>, t: seq<T>)
    decreases |t|
  {
    if s == [] then true
    else if t == [] then false
    else if s[0] == t[0] then IsSubsequence(s[1..], t[1..])
    else IsSubsequence(s, t[1..])
  }

  /** Appending the same element to both sides, or to the longer side only, keeps a subsequence. */
  lemma {:induction false} SubsequenceExtend<T>(s: seq<T>, t: seq<T>, x: T)
    requires IsSubsequence(s, t)
    ensures IsSubsequence(s, t + [x])
    ensures IsSubsequence(s + [x], t + [x])
    decreases |t|
  {
    if t == [] {
      assert s == [];
      assert ([x] + [])[1..] == [];
    } else if s == [] {
      assert (t + [x])[1..] == t[1..] + [x];
      if t[0] != x {
        SubsequenceExtend(s, t[1..], x);
      } else {
        assert (s + [x])[1..] == [];
      }
    } else {
      assert (t + [x])[1..] == t[1..] + [x];
      assert (s + [x])[0] == s[0] && (s + [x])[1..] == s[1..] + [x];
      if s[0] == t[0] {
        SubsequenceExtend(s[1..], t[1..], x);
      } else {
        SubsequenceExtend(s, t[1..], x);
      }
    }
  }

  /** Every element of a subsequence occurs in the sequence it is taken from. */
  lemma {:induction false} SubsequenceMembers<T>(s: seq<T>, t: seq<T>)
    requires IsSubsequence(s, t)
    ensures |s| <= |t|
    ensures forall x :: x in s ==> x in t
    decreases |t|
  {
    if s != [] {
      if s[0] == t[0] {
        SubsequenceMembers(s[1..], t[1..]);
        forall x | x in s ensures x in t {
          if x != s[0] {
            assert x in s[1..];
          }
        }
      } else {
        SubsequenceMembers(s, t[1..]);
      }
    }
  }

  /** A subsequence of a duplicate-free sequence is duplicate-free. */
  lemma {:induction false} SubsequenceNoDuplicates<T>(s: seq<T>, t: seq<T>)
    requires IsSubsequence(s, t) && NoDuplicates(t)
    ensures NoDuplicates(s)
    decreases |t|
  {
    if s != [] {
      assert NoDuplicates(t[1..]) by {
        forall i, j | 0 <= i < j < |t[1..]| ensures t[1..][i] != t[1..][j] {
          assert t[1..][i] == t[i + 1] && t[1..][j] == t[j + 1];
        }
      }
      if s[0] == t[0] {
        SubsequenceNoDuplicates(s[1..], t[1..]);
        SubsequenceMembers(s[1..], t[1..]);
        assert t[0] !in t[1..] by {
          forall i | 0 <= i < |t[1..]| ensures t[1..][i] != t[0] {
            assert t[1..][i] == t[i + 1];
          }
        }
        forall i, j | 0 <= i < j < |s| ensures s[i] != s[j] {
          assert s[j] == s[1..][j - 1];
          if i > 0 {
            assert s[i] == s[1..][i - 1];
          } else {
            assert s[j] in t[1..];
          }
        }
      } else {
        SubsequenceNoDuplicates(s, t[1..]);
      }
    }
  }

  /**
    Within a duplicate-free `t`, a subsequence is determined by which elements
    it keeps: order plus membership fix the result of a filter completely.
   */
  lemma {:induction false} SubsequenceDeterminedByMembers<T>(s1: seq<T>, s2: seq<T>, t: seq<T>)
    requires NoDuplicates(t)
    requires IsSubsequence(s1, t) && IsSubsequence(s2, t)
    requires forall x :: x in s1 <==> x in s2
    ensures s1 == s2
    decreases |t|
  {
    if t == [] {
      assert s1 == [] && s2 == [];
    } else {
      assert NoDuplicates(t[1..]) by {
        forall i, j | 0 <= i < j < |t[1..]| ensures t[1..][i] != t[1..][j] {
          assert t[1..][i] == t[i + 1] && t[1..][j] == t[j + 1];
        }
      }
      assert t[0] !in t[1..] by {
        forall i | 0 <= i < |t[1..]| ensures t[1..][i] != t[0] {
          assert t[1..][i] == t[i + 1];
        }
      }
      var r1 := if s1 != [] && s1[0] == t[0] then s1[1..] else s1;
      var r2 := if s2 != [] && s2[0] == t[0] then s2[1..] else s2;
      assert IsSubsequence(r1, t[1..]) && IsSubsequence(r2, t[1..]);
      SubsequenceMembers(r1, t[1..]);
      SubsequenceMembers(r2, t[1..]);
      SubsequenceNoDuplicates(s1, t);
      SubsequenceNoDuplicates(s2, t);
      forall x ensures x in r1 <==> x in r2 {
        if x == t[0] {
          assert x !in r1 && x !in r2;
        } else {
          assert x in r1 <==> x in s1;
          assert x in r2 <==> x in s2;
        }
      }
      SubsequenceDeterminedByMembers(r1, r2, t[1..]);
    }
  }
}
