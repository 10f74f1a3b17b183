/** The rules of the game stated over plain sets of cells: neighbouring-bomb counts,
    aloneness, what a run of random draws places, what a cascading reveal may and must
    expose, and what a flag toggle does. The board class is specified in these terms. */
module Rules {
  import opened Geometry

  /** Number of mines the game places. */
  const TotalMines := 40
  /** Number of draws after which mine placement gives up. */
  const MaxTries := 1000

  /** How many cells of s are in bombs: the length of s filtered by membership. */
  function CountIn(s: seq<Pos>, bombs: set<Pos>): (n: nat)
    ensures n <= |s|
    ensures n == 0 <==> forall i :: 0 <= i < |s| ==> s[i] !in bombs
  {
    if s == [] then 0
    else (if s[0] in bombs then 1 else 0) + CountIn(s[1..], bombs)
  }

  /** The number shown on a cell: how many of its neighbours hold a bomb. It is at most
      eight, and it is zero exactly when no neighbour is a bomb. */
  function BombCount(bombs: set<Pos>, p: Pos): (n: nat)
    requires InBounds(p)
    ensures n <= |Neighbors(p)| <= 8
    ensures n == 0 <==> Alone(bombs, p)
  {
    NeighborsShape(p);
    NeighborCount(p);
    CountIn(Neighbors(p), bombs)
  }

  /** The count is the number of neighbouring cells that hold a bomb. */
  lemma BombCountIsBombsAround(bombs: set<Pos>, p: Pos)
    requires InBounds(p)
    ensures BombCount(bombs, p) == |set q | q in bombs && IsNeighbor(p, q)|
  {
    NeighborsShape(p);
    assert Distinct(Neighbors(p));
    CountInDistinct(Neighbors(p), bombs);
    assert Elems(Neighbors(p)) * bombs == set q | q in bombs && IsNeighbor(p, q);
  }

  /** A cell with no bomb around it. Its bomb count is zero exactly when it is alone. */
  ghost predicate Alone(bombs: set<Pos>, p: Pos) {
    forall q :: IsNeighbor(p, q) ==> q !in bombs
  }

  /** The distinct cells of a sequence of cells: the cells a run of draws hit, or the
      cells a sweep exposed. */
  function Elems(s: seq<Pos>): set<Pos> {
    set q | q in s
  }

  /** Counting the cells of a list without repeats that lie in bombs is counting the
      distinct listed cells that do. */
  lemma {:induction false} CountInDistinct(s: seq<Pos>, bombs: set<Pos>)
    requires Distinct(s)
    ensures CountIn(s, bombs) == |Elems(s) * bombs|
  {
    if s != [] {
      assert Distinct(s[1..]);
      CountInDistinct(s[1..], bombs);
      HeadNotInTail(s);
      BombsAmongCons(s, bombs);
    }
  }

  /** Splitting off a first cell that does not recur splits the bombs among the cells. */
  lemma BombsAmongCons(s: seq<Pos>, bombs: set<Pos>)
    requires s != [] && s[0] !in Elems(s[1..])
    ensures |Elems(s) * bombs| == (if s[0] in bombs then 1 else 0) + |Elems(s[1..]) * bombs|
  {
    ElemsCons(s);
    if s[0] in bombs {
      assert Elems(s) * bombs == {s[0]} + Elems(s[1..]) * bombs;
    } else {
      assert Elems(s) * bombs == Elems(s[1..]) * bombs;
    }
  }

  lemma ElemsCons(s: seq<Pos>)
    requires s != []
    ensures Elems(s) == {s[0]} + Elems(s[1..])
  {
    assert s == [s[0]] + s[1..];
  }

  /** A list without repeats does not repeat its first cell. */
  lemma HeadNotInTail(s: seq<Pos>)
    requires Distinct(s) && s != []
    ensures s[0] !in Elems(s[1..])
  {
  }

  // ----- Mine placement -----

  /** One more draw adds its cell, and adds at most one cell. */
  lemma ElemsStep(s: seq<Pos>, k: nat)
    requires k < |s|
    ensures Elems(s[..k + 1]) == Elems(s[..k]) + {s[k]}
    ensures |Elems(s[..k])| <= |Elems(s[..k + 1])| <= |Elems(s[..k])| + 1
  {
    assert s[..k + 1] == s[..k] + [s[k]];
    if s[k] in Elems(s[..k]) {
      assert Elems(s[..k + 1]) == Elems(s[..k]);
    }
  }

  lemma ElemsSplice(a: seq<Pos>, b: Pos, c: seq<Pos>)
    ensures Elems(a + [b] + c) == Elems(a) + {b} + Elems(c)
  {
  }

  /** Drawing more never shrinks the set of distinct cells drawn. */
  lemma {:induction false} ElemsMonotone(s: seq<Pos>, i: nat, j: nat)
    requires i <= j <= |s|
    ensures Elems(s[..i]) <= Elems(s[..j])
    ensures |Elems(s[..i])| <= |Elems(s[..j])|
  {
    if i < j {
      ElemsMonotone(s, i, j - 1);
      ElemsStep(s, j - 1);
    }
  }

  /** Placement stopped after draw t: the first t draws, at most MaxTries of them, hold
      TotalMines distinct cells, which are the bombs, and the first t - 1 draws hold fewer. */
  ghost predicate StopsAt(bombs: set<Pos>, draws: seq<Pos>, t: int) {
    0 < t <= MaxTries && t <= |draws| && bombs == Elems(draws[..t]) &&
    |bombs| == TotalMines && |Elems(draws[..t - 1])| < TotalMines
  }

  /** The bombs a successful placement leaves: the distinct cells of the shortest run of
      draws, at most MaxTries long, that holds TotalMines distinct cells. */
  ghost predicate PlacedFrom(bombs: set<Pos>, draws: seq<Pos>) {
    exists t :: StopsAt(bombs, draws, t)
  }

  /** Placement can stop after one draw only. */
  lemma StopsOnce(b1: set<Pos>, b2: set<Pos>, draws: seq<Pos>, t1: int, t2: int)
    requires StopsAt(b1, draws, t1) && StopsAt(b2, draws, t2)
    ensures t1 == t2
  {
    if t1 < t2 {
      ElemsMonotone(draws, t1, t2 - 1);
    } else if t2 < t1 {
      ElemsMonotone(draws, t2, t1 - 1);
    }
  }

  /** The draws decide the bombs: two placements from the same draws leave the same set. */
  lemma PlacedFromUnique(b1: set<Pos>, b2: set<Pos>, draws: seq<Pos>)
    requires PlacedFrom(b1, draws) && PlacedFrom(b2, draws)
    ensures b1 == b2
  {
    var t1 :| StopsAt(b1, draws, t1);
    var t2 :| StopsAt(b2, draws, t2);
    StopsOnce(b1, b2, draws, t1, t2);
  }

  // ----- Cascading reveal -----

  /** Every alone neighbour of x is in `exposed`. */
  ghost predicate Covers(bombs: set<Pos>, exposed: set<Pos>, x: Pos) {
    forall q :: IsNeighbor(x, q) && Alone(bombs, q) ==> q in exposed
  }

  /** Cell order[i] was reached from p: it is a neighbour of p or of an earlier cell. */
  ghost predicate Reached(p: Pos, order: seq<Pos>, i: nat)
    requires i < |order|
  {
    IsNeighbor(p, order[i]) || exists j :: 0 <= j < i && IsNeighbor(order[j], order[i])
  }

  /** The cells a sweep from p exposed, in the order it exposed them: each was unexposed
      before, is alone, and was reached from p through cells exposed before it. */
  ghost predicate Grows(bombs: set<Pos>, p: Pos, before: set<Pos>, after: set<Pos>, order: seq<Pos>) {
    before <= after &&
    after - before == Elems(order) &&
    forall i :: 0 <= i < |order| ==>
      order[i] !in before && InBounds(order[i]) && Alone(bombs, order[i]) && Reached(p, order, i)
  }

  /** Every cell of order has its alone neighbours in `exposed`. */
  ghost predicate AllCovered(bombs: set<Pos>, exposed: set<Pos>, order: seq<Pos>) {
    forall i :: 0 <= i < |order| ==> Covers(bombs, exposed, order[i])
  }

  /** What a sweep from p does to the exposed set. If p is not alone nothing changes.
      Otherwise it only adds alone cells reached from p (in the given order), and
      afterwards every alone neighbour of p and of every added cell is exposed. */
  ghost predicate SweepResult(bombs: set<Pos>, p: Pos, before: set<Pos>, after: set<Pos>, order: seq<Pos>) {
    if !Alone(bombs, p) then after == before && order == []
    else Grows(bombs, p, before, after, order) &&
         Covers(bombs, after, p) && AllCovered(bombs, after, order)
  }

  lemma CoversMonotone(bombs: set<Pos>, e1: set<Pos>, e2: set<Pos>, order: seq<Pos>)
    requires e1 <= e2 && AllCovered(bombs, e1, order)
    ensures AllCovered(bombs, e2, order)
  {
  }

  /** A cell reached within a prefix of the order is still reached in a longer order. */
  lemma ReachedPrefix(p: Pos, order: seq<Pos>, extra: seq<Pos>, i: nat)
    requires i < |order| && Reached(p, order, i)
    ensures Reached(p, order + extra, i)
  {
    if !IsNeighbor(p, order[i]) {
      var j :| 0 <= j < i && IsNeighbor(order[j], order[i]);
      assert (order + extra)[j] == order[j];
    }
  }

  /** A cell reached from b in b's own order is reached from p once b's order follows b
      in p's order. */
  lemma ReachedShift(p: Pos, order: seq<Pos>, b: Pos, sub: seq<Pos>, k: nat)
    requires k < |sub| && Reached(b, sub, k)
    ensures Reached(p, order + [b] + sub, |order| + 1 + k)
  {
    var all := order + [b] + sub;
    assert all[|order| + 1 + k] == sub[k];
    if IsNeighbor(b, sub[k]) {
      assert all[|order|] == b;
    } else {
      var j :| 0 <= j < k && IsNeighbor(sub[j], sub[k]);
      assert all[|order| + 1 + j] == sub[j];
    }
  }

  /** One step of a sweep from p: expose the unexposed alone neighbour b, then sweep
      from b. The cells b's sweep exposed extend p's order. */
  lemma GrowsStep(bombs: set<Pos>, p: Pos, before: set<Pos>, mid: set<Pos>, order: seq<Pos>,
                  b: Pos, after: set<Pos>, sub: seq<Pos>)
    requires Grows(bombs, p, before, mid, order)
    requires IsNeighbor(p, b) && Alone(bombs, b) && b !in mid
    requires Grows(bombs, b, mid + {b}, after, sub)
    ensures Grows(bombs, p, before, after, order + [b] + sub)
  {
    var all := order + [b] + sub;
    ElemsSplice(order, b, sub);
    forall i | 0 <= i < |all|
      ensures all[i] !in before && InBounds(all[i]) && Alone(bombs, all[i]) && Reached(p, all, i)
    {
      GrowsStepAt(bombs, p, before, mid, order, b, after, sub, i);
    }
  }

  lemma GrowsStepAt(bombs: set<Pos>, p: Pos, before: set<Pos>, mid: set<Pos>, order: seq<Pos>,
                    b: Pos, after: set<Pos>, sub: seq<Pos>, i: nat)
    requires Grows(bombs, p, before, mid, order)
    requires IsNeighbor(p, b) && Alone(bombs, b) && b !in mid
    requires Grows(bombs, b, mid + {b}, after, sub)
    requires i < |order + [b] + sub|
    ensures var all := order + [b] + sub;
      all[i] !in before && InBounds(all[i]) && Alone(bombs, all[i]) && Reached(p, all, i)
  {
    var all := order + [b] + sub;
    if i < |order| {
      var x := order[i];
      assert all[i] == x;
      assert x !in before && InBounds(x) && Alone(bombs, x);
      ReachedPrefix(p, order, [b] + sub, i);
      assert order + ([b] + sub) == all;
    } else if i == |order| {
      assert all[i] == b;
      assert b !in before;
    } else {
      var k := i - |order| - 1;
      var x := sub[k];
      assert all[i] == x;
      assert x !in mid + {b} && InBounds(x) && Alone(bombs, x);
      ReachedShift(p, order, b, sub, k);
    }
  }

  /** The invariant of a sweep's neighbour loop survives one step that exposes the
      neighbour b and sweeps from it. */
  lemma SweepStep(bombs: set<Pos>, p: Pos, before: set<Pos>, mid: set<Pos>, order: seq<Pos>,
                  b: Pos, after: set<Pos>, sub: seq<Pos>)
    requires Grows(bombs, p, before, mid, order) && AllCovered(bombs, mid, order)
    requires IsNeighbor(p, b) && Alone(bombs, b) && b !in mid
    requires SweepResult(bombs, b, mid + {b}, after, sub)
    ensures Grows(bombs, p, before, after, order + [b] + sub)
    ensures AllCovered(bombs, after, order + [b] + sub)
    ensures mid + {b} <= after
  {
    GrowsStep(bombs, p, before, mid, order, b, after, sub);
    CoversMonotone(bombs, mid, after, order);
    var all := order + [b] + sub;
    forall i | 0 <= i < |all| ensures Covers(bombs, after, all[i]) {
      if i < |order| {
        assert all[i] == order[i];
      } else if i > |order| {
        assert all[i] == sub[i - |order| - 1];
      }
    }
  }

  /** The cells a sweep exposed are alone cells next to alone cells, so none is a bomb. */
  lemma SweepExposesNoBomb(bombs: set<Pos>, p: Pos, before: set<Pos>, after: set<Pos>, order: seq<Pos>)
    requires InBounds(p) && SweepResult(bombs, p, before, after, order)
    ensures forall q :: q in after - before ==> q !in bombs
  {
  }

  /** The first cell of a sweep's order is a neighbour of the start cell. */
  lemma ReachedFirst(p: Pos, order: seq<Pos>)
    requires order != [] ==> Reached(p, order, 0)
    ensures order != [] ==> IsNeighbor(p, order[0])
  {
  }

  /** A second sweep from the same cell exposes nothing new. */
  lemma {:induction false} SweepIdempotent(bombs: set<Pos>, p: Pos, e0: set<Pos>, e1: set<Pos>, o1: seq<Pos>,
                                           e2: set<Pos>, o2: seq<Pos>)
    requires InBounds(p)
    requires SweepResult(bombs, p, e0, e1, o1) && SweepResult(bombs, p, e1, e2, o2)
    ensures e2 == e1 && o2 == []
  {
    if Alone(bombs, p) {
      assert Grows(bombs, p, e1, e2, o2);
      assert Covers(bombs, e1, p);
      ReachedFirst(p, o2);
      assert o2 == [];
      assert Elems(o2) == {};
      forall x | x in e2 ensures x in e1 {
        assert x !in e2 - e1;
      }
    }
  }

  /** A plain click on a safe cell p exposes p and sweeps from it. Clicking it a second
      time changes nothing. */
  lemma PlainClickIdempotent(bombs: set<Pos>, p: Pos, e0: set<Pos>, e1: set<Pos>, o1: seq<Pos>,
                             e2: set<Pos>, o2: seq<Pos>)
    requires InBounds(p) && p !in bombs
    requires SweepResult(bombs, p, e0 + {p}, e1, o1)
    requires SweepResult(bombs, p, e1 + {p}, e2, o2)
    ensures e2 == e1
  {
    assert e1 + {p} == e1;
    SweepIdempotent(bombs, p, e0 + {p}, e1, o1, e2, o2);
  }

  // ----- Flags -----

  /** The flagged set after toggling the flag on p. */
  function Toggled(flags: set<Pos>, p: Pos): (r: set<Pos>)
    ensures p in r <==> p !in flags
    ensures forall q :: q != p ==> (q in r <==> q in flags)
  {
    if p in flags then flags - {p} else flags + {p}
  }

  /** Toggling twice restores the flags. */
  lemma ToggleTwice(flags: set<Pos>, p: Pos)
    ensures Toggled(Toggled(flags, p), p) == flags
  {
  }
}
