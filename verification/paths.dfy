/**
 * A path over a grid: it starts at (0, 0) and grows by one RIGHT or DOWN
 * step at a time, remembering where it stands, the steps taken and the gold
 * collected. A path is a value: copying it gives an independent path.
 */
module Paths {
  import opened Grids

  datatype Step = Right | Down

  datatype Path = Path(row: nat, col: nat, steps: seq<Step>, gold: nat)

  /** The cell one step away from (r, c). */
  function Next(r: nat, c: nat, d: Step): (nat, nat) {
    match d
    case Right => (r, c + 1)
    case Down => (r + 1, c)
  }

  /** Where a walk from (0, 0) along `s` ends; each step advances row or column by one. */
  function Pos(s: seq<Step>): (p: (nat, nat))
    ensures p.0 + p.1 == |s|
    decreases |s|
  {
    if s == [] then (0, 0)
    else
      var q := Pos(s[..|s| - 1]);
      Next(q.0, q.1, s[|s| - 1])
  }

  /** Every cell the walk along `s` steps onto is on the grid and not a rock. */
  predicate ValidRoute(g: Grid, s: seq<Step>)
    decreases |s|
  {
    s == [] || (ValidRoute(g, s[..|s| - 1]) && Passable(g, Pos(s).0, Pos(s).1))
  }

  /** Gold of every cell visited along `s`, the start cell included. */
  function RouteGold(g: Grid, s: seq<Step>): nat
    requires Rows(g) > 0 && Columns(g) > 0
    requires ValidRoute(g, s)
    decreases |s|
  {
    if s == [] then GoldAt(g, 0, 0)
    else RouteGold(g, s[..|s| - 1]) + GoldAt(g, Pos(s).0, Pos(s).1)
  }

  /** The invariant of a path over `g`: its position, steps and gold agree. */
  predicate ValidPath(g: Grid, p: Path) {
    && Rows(g) > 0 && Columns(g) > 0
    && ValidRoute(g, p.steps)
    && (p.row, p.col) == Pos(p.steps)
    && p.gold == RouteGold(g, p.steps)
  }

  /** A path that collects at least as much gold as any valid route over `g`. */
  ghost predicate IsOptimal(g: Grid, p: Path) {
    ValidPath(g, p) && forall s :: ValidRoute(g, s) ==> RouteGold(g, s) <= p.gold
  }

  /** A freshly constructed path: at the origin, no steps, the origin's gold. */
  function Fresh(g: Grid): (p: Path)
    requires Rows(g) > 0 && Columns(g) > 0
    ensures ValidPath(g, p) && p.steps == [] && p.gold == GoldAt(g, 0, 0)
  {
    Path(0, 0, [], GoldAt(g, 0, 0))
  }

  /** A step is valid when it lands on the grid and not on a rock. */
  predicate IsStepValid(g: Grid, p: Path, d: Step)
    ensures ValidPath(g, p) ==> (IsStepValid(g, p, d) <==> ValidRoute(g, p.steps + [d]))
  {
    assert ValidPath(g, p) ==> (p.steps + [d])[..|p.steps|] == p.steps;
    var (r, c) := Next(p.row, p.col, d);
    Passable(g, r, c)
  }

  /** Take one valid step: the position moves, the step is recorded and the new cell's gold is added. */
  function AddStep(g: Grid, p: Path, d: Step): (q: Path)
    requires IsStepValid(g, p, d)
    ensures ValidPath(g, p) ==> ValidPath(g, q)
    ensures q.steps == p.steps + [d]
    ensures q.gold >= p.gold
  {
    assert (p.steps + [d])[..|p.steps|] == p.steps;
    var (r, c) := Next(p.row, p.col, d);
    Path(r, c, p.steps + [d], p.gold + GoldAt(g, r, c))
  }

  /** Each prefix of a valid route is a valid route. */
  lemma {:induction false} ValidPrefix(g: Grid, s: seq<Step>, n: nat)
    requires ValidRoute(g, s) && n <= |s|
    ensures ValidRoute(g, s[..n])
    decreases |s|
  {
    if n < |s| {
      var t := s[..|s| - 1];
      assert s[..n] == t[..n];
      ValidPrefix(g, t, n);
    } else {
      assert s[..n] == s;
    }
  }
}
