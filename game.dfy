/** A game session: building a new game and reacting to a click on a cell. */
module Game {
  import opened Geometry
  import opened Rules
  import opened Board

  /** Why a new game could not be built. */
  datatype Failure = PlacementFailure

  datatype Result<T> = Ok(value: T) | Err(error: Failure)

  /** What a click led to: play goes on, or a bomb was hit and a new game was built
      (or building it failed). */
  datatype Outcome = Continue | Lost(restart: Result<Grid>)

  /** A grid as a new game starts: the board's size, the TotalMines bombs that rejection
      sampling places from the draws, nothing exposed and nothing flagged. */
  ghost predicate NewGame(g: Grid, draws: seq<Pos>)
    reads g.bomb, g.exposed, g.flag
  {
    g.Valid() && PlacedFrom(g.Bombs(), draws) && g.Exposed() == {} && g.Flagged() == {}
  }

  /** Build a game: an empty grid, then bombs seeded from the random draws. Building
      fails when the first MaxTries draws hold fewer than TotalMines distinct cells. */
  method Bootstrap(draws: seq<Pos>) returns (r: Result<Grid>)
    requires |draws| >= MaxTries && forall i :: 0 <= i < |draws| ==> InBounds(draws[i])
    ensures r.Ok? <==> |Elems(draws[..MaxTries])| >= TotalMines
    ensures r.Ok? ==> fresh(r.value) && fresh(r.value.bomb) && fresh(r.value.exposed) &&
                      fresh(r.value.flag) && NewGame(r.value, draws)
  {
    var g := new Grid();
    var ok, tries := g.PlaceBombs(draws);
    if ok {
      assert draws[..0] == [];
      assert StopsAt(g.Bombs(), draws, tries);
      r := Ok(g);
    } else {
      r := Err(PlacementFailure);
    }
  }

  /** A click on cell p. With the meta key held it toggles p's flag and nothing else.
      Otherwise it exposes p whatever its flag; if p holds a bomb the game is lost and a
      new one is built from fresh draws, else the reveal cascades from p. `order` lists
      the cells the cascade exposed. */
  method HandleClick(g: Grid, p: Pos, metaKey: bool, draws: seq<Pos>)
      returns (outcome: Outcome, ghost order: seq<Pos>)
    requires g.Valid() && InBounds(p)
    requires |draws| >= MaxTries && forall i :: 0 <= i < |draws| ==> InBounds(draws[i])
    modifies g.exposed, g.flag
    ensures g.Bombs() == old(g.Bombs())
    ensures old(g.Exposed()) <= g.Exposed()
    ensures metaKey ==> outcome == Continue && g.Exposed() == old(g.Exposed()) &&
                        g.Flagged() == Toggled(old(g.Flagged()), p)
    ensures !metaKey ==> g.Flagged() == old(g.Flagged()) && p in g.Exposed()
    ensures !metaKey && p in g.Bombs() ==> outcome.Lost? && g.Exposed() == old(g.Exposed()) + {p}
    ensures outcome.Lost? ==> (outcome.restart.Ok? <==> |Elems(draws[..MaxTries])| >= TotalMines)
    ensures outcome.Lost? && outcome.restart.Ok? ==>
              fresh(outcome.restart.value) && fresh(outcome.restart.value.bomb) &&
              fresh(outcome.restart.value.exposed) && fresh(outcome.restart.value.flag) &&
              NewGame(outcome.restart.value, draws)
    ensures !metaKey && p !in g.Bombs() ==>
              outcome == Continue &&
              SweepResult(g.Bombs(), p, old(g.Exposed()) + {p}, g.Exposed(), order) &&
              forall q :: q in g.Exposed() - old(g.Exposed()) ==> q !in g.Bombs()
  {
    order := [];
    if metaKey {
      g.ToggleFlag(p);
      outcome := Continue;
      return;
    }
    g.Expose(p);
    if g.IsBomb(p) {
      var next := Bootstrap(draws);
      outcome := Lost(next);
      return;
    }
    order := g.SweepFromBox(p);
    outcome := Continue;
  }
}
