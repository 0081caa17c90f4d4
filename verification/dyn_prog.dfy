/**
 * The dynamic-programming solver: a row-major table holds, for every cell,
 * the best path found to it (None for rocks and unreachable cells); the
 * table is then scanned for the path with the most gold.
 */
module DynamicProgramming {
  import opened Wrappers
  import opened Grids
  import opened Paths

  /**
   * The entry kept from the two candidates for a cell: the one with more
   * gold, the one from above on a tie, whichever exists if only one does.
   */
  function Better(fromAbove: Option<Path>, fromLeft: Option<Path>): (r: Option<Path>)
    ensures r.None? <==> fromAbove.None? && fromLeft.None?
    ensures r.Some? ==> r == fromAbove || r == fromLeft
    ensures r.Some? && fromAbove.Some? ==> fromAbove.value.gold <= r.value.gold
    ensures r.Some? && fromLeft.Some? ==> fromLeft.value.gold <= r.value.gold
    ensures fromAbove.Some? && fromLeft.Some? && fromAbove.value.gold >= fromLeft.value.gold ==> r == fromAbove
  {
    if fromAbove.Some? && fromLeft.Some? then
      if fromAbove.value.gold >= fromLeft.value.gold then fromAbove else fromLeft
    else if fromAbove.Some? then fromAbove
    else fromLeft
  }

  /** The table entry for cell (i, j) once the fill has reached it. */
  function DpEntry(g: Grid, i: nat, j: nat): (r: Option<Path>)
    requires InBounds(g, i, j)
    ensures r.Some? ==> ValidPath(g, r.value) && r.value.row == i && r.value.col == j
    ensures g[i][j].Rock? ==> r.None?
    decreases i + j
  {
    if g[i][j].Rock? then None
    else if i == 0 && j == 0 then Some(Fresh(g))
    else
      var above := if i > 0 then DpEntry(g, i - 1, j) else None;
      var left := if j > 0 then DpEntry(g, i, j - 1) else None;
      var fromAbove := if above.Some? then Some(AddStep(g, above.value, Down)) else None;
      var fromLeft := if left.Some? then Some(AddStep(g, left.value, Right)) else None;
      Better(fromAbove, fromLeft)
  }

  /** `s` is a valid route ending at (i, j). */
  ghost predicate Reaches(g: Grid, s: seq<Step>, i: nat, j: nat) {
    ValidRoute(g, s) && Pos(s) == (i, j)
  }

  /**
   * `e` is the right entry for (i, j): None exactly when no valid route
   * reaches the cell, otherwise a path ending there with the most gold of
   * any valid route to it.
   */
  ghost predicate BestTo(g: Grid, i: nat, j: nat, e: Option<Path>)
    requires InBounds(g, i, j)
  {
    match e
    case None => forall s :: !Reaches(g, s, i, j)
    case Some(p) =>
      && ValidPath(g, p) && p.row == i && p.col == j
      && forall s :: Reaches(g, s, i, j) ==> RouteGold(g, s) <= p.gold
  }

  /** Every table entry is optimal for its cell (the induction behind the fill). */
  lemma {:induction false} DpEntryOptimal(g: Grid, i: nat, j: nat)
    requires InBounds(g, i, j) && Passable(g, 0, 0)
    ensures BestTo(g, i, j, DpEntry(g, i, j))
    decreases i + j
  {
    if i > 0 { DpEntryOptimal(g, i - 1, j); }
    if j > 0 { DpEntryOptimal(g, i, j - 1); }
    var e := DpEntry(g, i, j);
    forall s | Reaches(g, s, i, j) ensures e.Some? && RouteGold(g, s) <= e.value.gold {
      if s != [] {
        var t := s[..|s| - 1];
        if s[|s| - 1] == Down {
          assert Reaches(g, t, i - 1, j);
        } else {
          assert Reaches(g, t, i, j - 1);
        }
      }
    }
  }

  /**
   * The entry of a passable cell other than the origin, from the entries
   * above and to the left (None when out of range): each present neighbour
   * is extended by one step onto (i, j) and the better extension is kept.
   */
  method CombineNeighbours(g: Grid, i: nat, j: nat, above: Option<Path>, left: Option<Path>) returns (e: Option<Path>)
    requires Passable(g, i, j) && (i, j) != (0, 0)
    requires above == (if i > 0 then DpEntry(g, i - 1, j) else None)
    requires left == (if j > 0 then DpEntry(g, i, j - 1) else None)
    ensures e == DpEntry(g, i, j)
  {
    var fromAbove: Option<Path> := None;
    var fromLeft: Option<Path> := None;
    if above.Some? {
      fromAbove := Some(AddStep(g, above.value, Down));
    }
    if left.Some? {
      fromLeft := Some(AddStep(g, left.value, Right));
    }
    if fromAbove.Some? && fromLeft.Some? {
      if fromAbove.value.gold >= fromLeft.value.gold {
        e := fromAbove;
      } else {
        e := fromLeft;
      }
    } else if fromAbove.Some? {
      e := fromAbove;
    } else if fromLeft.Some? {
      e := fromLeft;
    } else {
      e := None;
    }
  }

  /** Fills the table in row-major order, as the solver does before its scan. */
  method FillTable(g: Grid) returns (a: array2<Option<Path>>)
    requires Rows(g) > 0 && Columns(g) > 0
    ensures fresh(a)
    ensures a.Length0 == Rows(g) && a.Length1 == Columns(g)
    ensures forall i, j :: 0 <= i < Rows(g) && 0 <= j < Columns(g) ==> a[i, j] == DpEntry(g, i, j)
  {
    a := new Option<Path>[Rows(g), Columns(g)]((_, _) => None);
    a[0, 0] := Some(Fresh(g));
    for i := 0 to Rows(g)
      invariant forall r, c :: 0 <= r < i && 0 <= c < Columns(g) ==> a[r, c] == DpEntry(g, r, c)
      invariant i == 0 ==> a[0, 0] == Some(Fresh(g))
    {
      for j := 0 to Columns(g)
        invariant forall r, c :: 0 <= r < Rows(g) && 0 <= c < Columns(g) && (r < i || (r == i && c < j)) ==> a[r, c] == DpEntry(g, r, c)
        invariant i == 0 && j == 0 ==> a[0, 0] == Some(Fresh(g))
      {
        if g[i][j].Rock? {
          a[i, j] := None;
        } else if i == 0 && j == 0 {
          // the origin keeps the fresh path stored before the loop
        } else {
          var above := if i > 0 then a[i - 1, j] else None;
          var left := if j > 0 then a[i, j - 1] else None;
          a[i, j] := CombineNeighbours(g, i, j, above, left);
        }
      }
    }
  }

  /**
   * Scans the table in row-major order, starting from the origin's entry and
   * replacing the best path only on strictly more gold. (bi, bj) is where
   * the returned path was found: the first maximum in row-major order.
   */
  method ScanTable(a: array2<Option<Path>>) returns (best: Path, ghost bi: nat, ghost bj: nat)
    requires a.Length0 > 0 && a.Length1 > 0 && a[0, 0].Some?
    ensures bi < a.Length0 && bj < a.Length1 && a[bi, bj] == Some(best)
    ensures forall i, j :: 0 <= i < a.Length0 && 0 <= j < a.Length1 && a[i, j].Some? ==> a[i, j].value.gold <= best.gold
    ensures forall i, j :: 0 <= i < a.Length0 && 0 <= j < a.Length1 && (i < bi || (i == bi && j < bj)) && a[i, j].Some?
              ==> a[i, j].value.gold < best.gold
  {
    best, bi, bj := a[0, 0].value, 0, 0;
    for ind := 0 to a.Length0
      invariant bi < a.Length0 && bj < a.Length1 && a[bi, bj] == Some(best)
      invariant forall i, j :: 0 <= i < ind && 0 <= j < a.Length1 && a[i, j].Some? ==> a[i, j].value.gold <= best.gold
      invariant forall i, j :: 0 <= i < a.Length0 && 0 <= j < a.Length1 && (i < bi || (i == bi && j < bj)) && a[i, j].Some?
                  ==> a[i, j].value.gold < best.gold
    {
      for j := 0 to a.Length1
        invariant bi < a.Length0 && bj < a.Length1 && a[bi, bj] == Some(best)
        invariant forall r, c :: 0 <= r < a.Length0 && 0 <= c < a.Length1 && (r < ind || (r == ind && c < j)) && a[r, c].Some?
                    ==> a[r, c].value.gold <= best.gold
        invariant forall r, c :: 0 <= r < a.Length0 && 0 <= c < a.Length1 && (r < bi || (r == bi && c < bj)) && a[r, c].Some?
                    ==> a[r, c].value.gold < best.gold
      {
        if a[ind, j].Some? && a[ind, j].value.gold > best.gold {
          best, bi, bj := a[ind, j].value, ind, j;
        }
      }
    }
  }

  /** (i, j) holds `best`, and every earlier entry in row-major order has less gold. */
  ghost predicate FirstBestEntry(g: Grid, i: nat, j: nat, best: Path) {
    && InBounds(g, i, j) && DpEntry(g, i, j) == Some(best)
    && forall r: nat, c: nat :: InBounds(g, r, c) && (r < i || (r == i && c < j)) && DpEntry(g, r, c).Some?
         ==> DpEntry(g, r, c).value.gold < best.gold
  }

  /**
   * The dynamic-programming solver. The origin must be passable: the scan
   * starts from the origin's entry. The result collects the most gold of any
   * valid route, and is the first entry of the table with that gold.
   */
  method GreedyGnomesDynProg(g: Grid) returns (best: Path)
    requires Rows(g) > 0 && Columns(g) > 0
    requires Passable(g, 0, 0)
    ensures IsOptimal(g, best)
    ensures exists i: nat, j: nat :: FirstBestEntry(g, i, j, best)
  {
    var a := FillTable(g);
    ghost var bi, bj;
    best, bi, bj := ScanTable(a);
    assert FirstBestEntry(g, bi, bj, best);
    assert ValidPath(g, best);
    forall s | ValidRoute(g, s) ensures RouteGold(g, s) <= best.gold {
      var (i, j) := Pos(s);
      assert Passable(g, i, j) || s == [];
      DpEntryOptimal(g, i, j);
      assert Reaches(g, s, i, j);
    }
  }
}
