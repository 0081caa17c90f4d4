/**
 * The exhaustive solver: for every length i up to rows + columns - 2 and
 * every bit pattern below 2^i, it builds a candidate path from i + 1 step
 * attempts and keeps the candidate with strictly more gold.
 */
module ExhaustiveSearch {
  import opened Wrappers
  import opened Grids
  import opened Paths

  /** 2^n, the value of `pow(2, n)`. */
  function Pow2(n: nat): (r: nat)
    ensures r >= 1
  {
    if n == 0 then 1 else 2 * Pow2(n - 1)
  }

  /** 2^n is `1 << n`: bit n is its only set bit. */
  lemma {:induction false} Pow2SingleBit(n: nat, k: nat)
    ensures Bit(Pow2(n), k) <==> k == n
  {
    if n > 0 && k > 0 {
      assert Pow2(n) / 2 == Pow2(n - 1);
      Pow2SingleBit(n - 1, k - 1);
    } else if n == 0 && k > 0 {
      assert !Bit(0, k - 1);
    }
  }

  /** The most steps any path can take: rows - 1 downwards and columns - 1 to the right. */
  function MaxSteps(g: Grid): (r: int)
    ensures Rows(g) > 0 && Columns(g) > 0 ==> forall s :: ValidRoute(g, s) ==> |s| <= r
  {
    Rows(g) + Columns(g) - 2
  }

  /** Bit k of n, that is `((n >> k) & 1) == 1`. */
  function Bit(n: nat, k: nat): (b: bool)
    ensures b ==> n > 0
  {
    if k == 0 then n % 2 == 1 else Bit(n / 2, k - 1)
  }

  /** Bit k is the low bit of n shifted right by k places, `n >> k == n / 2^k`. */
  lemma {:induction false} BitIsShift(n: nat, k: nat)
    ensures Bit(n, k) <==> (n / Pow2(k)) % 2 == 1
  {
    if k > 0 {
      BitIsShift(n / 2, k - 1);
      DivDiv(n, Pow2(k - 1));
    }
  }

  /** Halving and then dividing by p is dividing by 2p. */
  lemma DivDiv(n: nat, p: nat)
    requires p > 0
    ensures (n / 2) / p == n / (2 * p)
  {
    var q := n / (2 * p);
    var r := n % (2 * p);
    assert n == q * (2 * p) + r;
    assert n / 2 == q * p + r / 2;
    DivUnique(n / 2, p, q, r / 2);
  }

  /** The quotient of n by p is the q with n == q * p + r and 0 <= r < p. */
  lemma DivUnique(n: nat, p: nat, q: nat, r: nat)
    requires p > 0 && n == q * p + r && r < p
    ensures n / p == q
  {
    var q', r' := n / p, n % p;
    assert q' * p + r' == q * p + r;
    if q' > q {
      MulAtLeast(q' - q, q, p);
    } else if q' < q {
      MulAtLeast(q - q', q', p);
    }
  }

  /** Adding a >= 1 to a factor raises the product by at least p. */
  lemma MulAtLeast(a: nat, b: nat, p: nat)
    requires a >= 1
    ensures (b + a) * p >= b * p + p
  {
    assert (b + a) * p == b * p + a * p;
  }

  /** A pattern below 2^i has bit i clear, so the last of the i + 1 attempts never asks for RIGHT. */
  lemma HighBitClear(n: nat, i: nat)
    requires n < Pow2(i)
    ensures !Bit(n, i)
  {
    BitIsShift(n, i);
  }

  /**
   * One step attempt: RIGHT when the bit is set and RIGHT is valid,
   * otherwise DOWN when DOWN is valid, otherwise no step at all.
   */
  function Attempt(g: Grid, p: Path, b: bool): (q: Path)
    ensures ValidPath(g, p) ==> ValidPath(g, q)
    ensures q.gold >= p.gold
    ensures b && IsStepValid(g, p, Right) ==> q.steps == p.steps + [Right]
    ensures !(b && IsStepValid(g, p, Right)) && IsStepValid(g, p, Down) ==> q.steps == p.steps + [Down]
    ensures !(b && IsStepValid(g, p, Right)) && !IsStepValid(g, p, Down) ==> q == p
  {
    if b && IsStepValid(g, p, Right) then AddStep(g, p, Right)
    else if IsStepValid(g, p, Down) then AddStep(g, p, Down)
    else p
  }

  /** A fresh path after the first n attempts, attempt k reading bit k of `bit`. */
  function Attempts(g: Grid, bit: nat, n: nat): (p: Path)
    requires Rows(g) > 0 && Columns(g) > 0
    ensures ValidPath(g, p) && |p.steps| <= n
  {
    if n == 0 then Fresh(g) else Attempt(g, Attempts(g, bit, n - 1), Bit(bit, n - 1))
  }

  /** The candidate of length i for pattern `bit`: a valid path of at most i + 1 steps. */
  function Candidate(g: Grid, i: nat, bit: nat): (p: Path)
    requires Rows(g) > 0 && Columns(g) > 0
    ensures ValidPath(g, p) && |p.steps| <= i + 1
  {
    Attempts(g, bit, i + 1)
  }

  /** The bit pattern that asks for RIGHT exactly where `s` steps right (bit k for step k). */
  function Encode(s: seq<Step>): (n: nat)
    ensures n < Pow2(|s|)
  {
    if s == [] then 0 else (if s[0] == Right then 1 else 0) + 2 * Encode(s[1..])
  }

  lemma {:induction false} EncodeBit(s: seq<Step>, k: nat)
    requires k < |s|
    ensures Bit(Encode(s), k) <==> s[k] == Right
  {
    var h := if s[0] == Right then 1 else 0;
    assert Encode(s) == h + 2 * Encode(s[1..]);
    assert Encode(s) % 2 == h && Encode(s) / 2 == Encode(s[1..]);
    if k > 0 {
      EncodeBit(s[1..], k - 1);
    }
  }

  /** Driving the attempts with the encoding of a valid route retraces that route. */
  lemma {:induction false} AttemptsReplay(g: Grid, s: seq<Step>, n: nat)
    requires Rows(g) > 0 && Columns(g) > 0
    requires ValidRoute(g, s) && n <= |s|
    ensures Attempts(g, Encode(s), n).steps == s[..n]
  {
    if n > 0 {
      AttemptsReplay(g, s, n - 1);
      var p := Attempts(g, Encode(s), n - 1);
      ValidPrefix(g, s, n);
      var t := s[..n];
      assert t[..n - 1] == s[..n - 1];
      assert t == s[..n - 1] + [s[n - 1]];
      EncodeBit(s, n - 1);
      assert IsStepValid(g, p, s[n - 1]);
    }
  }

  /** Every valid route is matched or beaten by the candidate that encodes it. */
  lemma {:induction false} CandidateDominates(g: Grid, s: seq<Step>)
    requires Rows(g) > 0 && Columns(g) > 0
    requires ValidRoute(g, s)
    ensures |s| <= MaxSteps(g) && Encode(s) < Pow2(|s|)
    ensures RouteGold(g, s) <= Candidate(g, |s|, Encode(s)).gold
  {
    AttemptsReplay(g, s, |s|);
    assert s[..|s|] == s;
  }

  /** Builds candidate (i, bit) from a fresh path by i + 1 step attempts. */
  method BuildCandidate(g: Grid, i: nat, bit: nat) returns (candidate: Path)
    requires Rows(g) > 0 && Columns(g) > 0
    ensures candidate == Candidate(g, i, bit)
  {
    candidate := Fresh(g);
    for k := 0 to i + 1
      invariant candidate == Attempts(g, bit, k)
    {
      if Bit(bit, k) && IsStepValid(g, candidate, Right) {
        candidate := AddStep(g, candidate, Right);
      } else if IsStepValid(g, candidate, Down) {
        candidate := AddStep(g, candidate, Down);
      }
    }
  }

  /** Pattern `b` of length `i'` comes before pattern `bit` of length `i` in the enumeration. */
  predicate Earlier(i': nat, b: nat, i: nat, bit: nat) {
    b < Pow2(i') && (i' < i || (i' == i && b < bit))
  }

  /**
   * What the solver knows once every candidate Earlier than (i, bit) has
   * been compared: `best` beats or ties all of them and the seed, and it is
   * the seed (winner None) or the first candidate with its gold.
   */
  ghost predicate Kept(g: Grid, best: Path, winner: Option<(nat, nat)>, i: nat, bit: nat)
    requires Rows(g) > 0 && Columns(g) > 0
  {
    && ValidPath(g, best)
    && Fresh(g).gold <= best.gold
    && (forall i': nat, b: nat :: Earlier(i', b, i, bit) ==> Candidate(g, i', b).gold <= best.gold)
    && (winner.None? ==> best == Fresh(g))
    && (winner.Some? ==>
         && Earlier(winner.value.0, winner.value.1, i, bit)
         && best == Candidate(g, winner.value.0, winner.value.1)
         && Fresh(g).gold < best.gold
         && forall i': nat, b: nat :: Earlier(i', b, winner.value.0, winner.value.1) ==> Candidate(g, i', b).gold < best.gold)
  }

  /** Comparing candidate (i, bit) with strict `<` keeps Kept one pattern further. */
  lemma KeptStep(g: Grid, best: Path, winner: Option<(nat, nat)>, i: nat, bit: nat)
    requires Rows(g) > 0 && Columns(g) > 0
    requires Kept(g, best, winner, i, bit) && bit < Pow2(i)
    ensures var c := Candidate(g, i, bit);
      if best.gold < c.gold then Kept(g, c, Some((i, bit)), i, bit + 1)
      else Kept(g, best, winner, i, bit + 1)
  {
  }

  /** Finishing every pattern of length i is starting length i + 1. */
  lemma KeptNextLength(g: Grid, best: Path, winner: Option<(nat, nat)>, i: nat)
    requires Rows(g) > 0 && Columns(g) > 0
    requires Kept(g, best, winner, i, Pow2(i))
    ensures Kept(g, best, winner, i + 1, 0)
  {
  }

  /**
   * The exhaustive solver. `winner` names the (length, pattern) of the
   * candidate returned, or None when the fresh seed path is returned.
   */
  method GreedyGnomesExhaustive(g: Grid) returns (best: Path, ghost winner: Option<(nat, nat)>)
    requires Rows(g) > 0 && Columns(g) > 0
    requires MaxSteps(g) < 64
    ensures ValidPath(g, best)
    ensures Fresh(g).gold <= best.gold
    ensures forall i: nat, bit: nat :: i <= MaxSteps(g) && bit < Pow2(i) ==> Candidate(g, i, bit).gold <= best.gold
    ensures winner.None? ==> best == Fresh(g)
    ensures winner.Some? ==>
      && winner.value.0 <= MaxSteps(g) && winner.value.1 < Pow2(winner.value.0)
      && best == Candidate(g, winner.value.0, winner.value.1)
      && Fresh(g).gold < best.gold
      && forall i: nat, bit: nat :: Earlier(i, bit, winner.value.0, winner.value.1) ==> Candidate(g, i, bit).gold < best.gold
    ensures IsOptimal(g, best)
  {
    var maxSteps := Rows(g) + Columns(g) - 2;
    best := Fresh(g);
    winner := None;
    for i := 0 to maxSteps + 1
      invariant Kept(g, best, winner, i, 0)
    {
      for bit := 0 to Pow2(i)
        invariant Kept(g, best, winner, i, bit)
      {
        var candidate := BuildCandidate(g, i, bit);
        KeptStep(g, best, winner, i, bit);
        if best.gold < candidate.gold {
          best := candidate;
          winner := Some((i, bit));
        }
      }
      KeptNextLength(g, best, winner, i);
    }
    forall i: nat, bit: nat | i <= maxSteps && bit < Pow2(i) ensures Candidate(g, i, bit).gold <= best.gold {
      assert Earlier(i, bit, maxSteps + 1, 0);
    }
    forall s | ValidRoute(g, s) ensures RouteGold(g, s) <= best.gold {
      CandidateDominates(g, s);
    }
  }
}
