/** The live board: one GridSize x GridSize grid of cells whose bomb, exposed and flag
    bits are updated in place. A cell is identified by its (row, col) index in the three
    arrays. */
module Board {
  import opened Geometry
  import opened Rules

  class Grid {
    const bomb: array2<bool>
    const exposed: array2<bool>
    const flag: array2<bool>

    /** The three arrays are the board's size and are three separate objects. */
    predicate Valid() {
      bomb.Length0 == GridSize && bomb.Length1 == GridSize &&
      exposed.Length0 == GridSize && exposed.Length1 == GridSize &&
      flag.Length0 == GridSize && flag.Length1 == GridSize &&
      bomb != exposed && bomb != flag && exposed != flag
    }

    /** The cells holding a bomb. */
    ghost function Bombs(): set<Pos>
      reads bomb
      requires Valid()
    {
      set r, c | 0 <= r < GridSize && 0 <= c < GridSize && bomb[r, c] :: Pos(r, c)
    }

    /** The cells the player can see. */
    ghost function Exposed(): set<Pos>
      reads exposed
      requires Valid()
    {
      set r, c | 0 <= r < GridSize && 0 <= c < GridSize && exposed[r, c] :: Pos(r, c)
    }

    /** The cells still hidden; it shrinks with every exposure. */
    ghost function Unexposed(): set<Pos>
      reads exposed
      requires Valid()
    {
      AllCells - Exposed()
    }

    /** The cells carrying a flag. */
    ghost function Flagged(): set<Pos>
      reads flag
      requires Valid()
    {
      set r, c | 0 <= r < GridSize && 0 <= c < GridSize && flag[r, c] :: Pos(r, c)
    }

    /** A fresh grid: every cell unexposed, unflagged and free of bombs. */
    constructor ()
      ensures Valid() && fresh(bomb) && fresh(exposed) && fresh(flag)
      ensures Bombs() == {} && Exposed() == {} && Flagged() == {}
    {
      bomb := new bool[GridSize, GridSize]((r, c) => false);
      exposed := new bool[GridSize, GridSize]((r, c) => false);
      flag := new bool[GridSize, GridSize]((r, c) => false);
    }

    /** Seed TotalMines bombs by rejection sampling over the given draws: a draw on a cell
        that already holds a bomb is skipped, and the placement gives up once more than
        MaxTries draws would be needed. The bombs are the distinct cells of the draws used,
        and placement succeeds exactly when the first MaxTries draws hold TotalMines distinct
        cells. */
    method PlaceBombs(draws: seq<Pos>) returns (ok: bool, tries: nat)
      requires Valid() && Bombs() == {}
      requires |draws| >= MaxTries && forall i :: 0 <= i < |draws| ==> InBounds(draws[i])
      modifies bomb
      ensures ok ==> tries <= MaxTries && Bombs() == Elems(draws[..tries])
      ensures ok ==> |Bombs()| == TotalMines
      ensures ok && tries > 0 ==> |Elems(draws[..tries - 1])| < TotalMines
      ensures !ok ==> tries == MaxTries + 1 && Bombs() == Elems(draws[..MaxTries])
      ensures !ok ==> |Bombs()| < TotalMines
      ensures ok <==> |Elems(draws[..MaxTries])| >= TotalMines
    {
      var bombsToPlace := TotalMines;
      tries := 0;
      while bombsToPlace != 0
        invariant tries <= MaxTries
        invariant Bombs() == Elems(draws[..tries])
        invariant 0 <= bombsToPlace == TotalMines - |Bombs()|
        invariant tries > 0 ==> |Elems(draws[..tries - 1])| < TotalMines
        decreases MaxTries - tries
      {
        tries := tries + 1;
        if tries > MaxTries {
          ok := false;
          return;
        }
        var d := draws[tries - 1];
        ElemsStep(draws, tries - 1);
        if !bomb[d.row, d.col] {
          SetBomb(d);
          bombsToPlace := bombsToPlace - 1;
        }
      }
      ok := true;
      ElemsMonotone(draws, tries, MaxTries);
    }

    /** Put a bomb on p. */
    method SetBomb(p: Pos)
      requires Valid() && InBounds(p) && p !in Bombs()
      modifies bomb
      ensures Bombs() == old(Bombs()) + {p}
      ensures |Bombs()| == |old(Bombs())| + 1
    {
      bomb[p.row, p.col] := true;
      assert Bombs() == old(Bombs()) + {p};
    }

    /** The number of bombs among p's neighbours, counted from the bomb array over the
        neighbour list. */
    function NeighboringBombs(p: Pos): (n: nat)
      reads bomb
      requires Valid() && InBounds(p)
      ensures n == BombCount(Bombs(), p)
    {
      NeighborsShape(p);
      CountBombs(Neighbors(p))
    }

    /** How many cells of s hold a bomb. */
    function CountBombs(s: seq<Pos>): (n: nat)
      reads bomb
      requires Valid() && forall i :: 0 <= i < |s| ==> InBounds(s[i])
      ensures n == CountIn(s, Bombs())
    {
      if s == [] then 0
      else
        var q := s[0];
        assert InBounds(q);
        (if bomb[q.row, q.col] then 1 else 0) + CountBombs(s[1..])
    }

    /** p has no bomb among its neighbours. */
    predicate IsAlone(p: Pos)
      reads bomb
      requires Valid() && InBounds(p)
      ensures IsAlone(p) <==> Alone(Bombs(), p)
    {
      NeighboringBombs(p) == 0
    }

    /** Make p visible. */
    method Expose(p: Pos)
      requires Valid() && InBounds(p)
      modifies exposed
      ensures Exposed() == old(Exposed()) + {p}
    {
      exposed[p.row, p.col] := true;
      assert Exposed() == old(Exposed()) + {p};
    }

    /** Whether p is visible. */
    predicate IsExposed(p: Pos)
      reads exposed
      requires Valid() && InBounds(p)
      ensures IsExposed(p) <==> p in Exposed()
    {
      exposed[p.row, p.col]
    }

    /** Whether p holds a bomb. */
    predicate IsBomb(p: Pos)
      reads bomb
      requires Valid() && InBounds(p)
      ensures IsBomb(p) <==> p in Bombs()
    {
      bomb[p.row, p.col]
    }

    /** Flip the flag on p and on no other cell. */
    method ToggleFlag(p: Pos)
      requires Valid() && InBounds(p)
      modifies flag
      ensures Flagged() == Toggled(old(Flagged()), p)
    {
      flag[p.row, p.col] := !flag[p.row, p.col];
      assert Flagged() == Toggled(old(Flagged()), p);
    }

    /** Cascading reveal from p. Nothing happens unless p is alone; otherwise every
        unexposed alone neighbour is exposed and the reveal continues from it. The exposed
        flag doubles as the visited set, so no cell is entered twice. `order` lists the
        cells exposed, in the order they were exposed. */
    method SweepFromBox(p: Pos) returns (ghost order: seq<Pos>)
      requires Valid() && InBounds(p)
      modifies exposed
      ensures SweepResult(Bombs(), p, old(Exposed()), Exposed(), order)
      ensures forall q :: q in Exposed() - old(Exposed()) ==> q !in Bombs()
      decreases Unexposed()
    {
      order := [];
      if !IsAlone(p) {
        return;
      }
      ghost var before := Exposed();
      ghost var hidden := Unexposed();
      var boxes := GetNeighbors(p);
      NeighborsShape(p);
      for i := 0 to |boxes|
        invariant Grows(Bombs(), p, before, Exposed(), order)
        invariant AllCovered(Bombs(), Exposed(), order)
        invariant Unexposed() <= hidden
        invariant forall j :: 0 <= j < i ==> boxes[j] in Exposed() || !Alone(Bombs(), boxes[j])
      {
        var b := boxes[i];
        assert IsNeighbor(p, b);
        if !IsExposed(b) && IsAlone(b) {
          ghost var mid := Exposed();
          Expose(b);
          assert b in AllCells;
          var sub := SweepFromBox(b);
          SweepStep(Bombs(), p, before, mid, order, b, Exposed(), sub);
          order := order + [b] + sub;
        }
      }
      SweepExposesNoBomb(Bombs(), p, before, Exposed(), order);
    }
  }
}
