/** The two solvers, run on the same grid, collect the same amount of gold. */
module Agreement {
  import opened Grids
  import opened Paths
  import ExhaustiveSearch
  import DynamicProgramming

  /** Two optimal paths over one grid collect equal gold. */
  lemma OptimalGoldUnique(g: Grid, p: Path, q: Path)
    requires IsOptimal(g, p) && IsOptimal(g, q)
    ensures p.gold == q.gold
  {
  }

  method SolversAgree(g: Grid) returns (exhaustive: Path, dynProg: Path)
    requires Rows(g) > 0 && Columns(g) > 0 && Passable(g, 0, 0)
    requires ExhaustiveSearch.MaxSteps(g) < 64
    ensures exhaustive.gold == dynProg.gold
  {
    ghost var winner;
    exhaustive, winner := ExhaustiveSearch.GreedyGnomesExhaustive(g);
    dynProg := DynamicProgramming.GreedyGnomesDynProg(g);
    OptimalGoldUnique(g, exhaustive, dynProg);
  }
}
