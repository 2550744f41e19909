/**
 * Duration.build, the decomposition behind Duration#normalize: the parts of a total
 * number of seconds, taken greedily from the largest unit to the smallest, with the
 * exact remainder left in seconds. A negative total is decomposed by its absolute
 * value and every part carries the sign.
 */
module Decomposition {
  import opened Units
  import opened PartsAlgebra

  /** Whether a quantity is a whole number. */
  predicate IsWhole(x: real) {
    x == x.Floor as real
  }

  /** Conversely, the multiples bracketing x fix its quotient. */
  lemma QuotientUnique(x: real, u: Unit, q: int)
    requires 0.0 <= x - InSeconds(q as real, u) < Factor(u)
    ensures Quotient(x, u) == q
  {
    match u
    case Seconds =>
    case Minutes =>
    case Hours =>
    case Days =>
    case Weeks =>
    case Months =>
    case Years =>
  }

  /** `x.div(factor)`: x divided by a unit's factor, floored. */
  function Quotient(x: real, u: Unit): (q: int)
    ensures InSeconds(q as real, u) <= x < InSeconds((q + 1) as real, u)
  {
    match u
    case Seconds => x.Floor
    case Minutes => (x / 60.0).Floor
    case Hours => (x / 3600.0).Floor
    case Days => (x / 86400.0).Floor
    case Weeks => (x / 604800.0).Floor
    case Months => (x / 2629746.0).Floor
    case Years => (x / 31556952.0).Floor
  }

  /** `x % factor`: what is left of x after taking out whole units. */
  function Remainder(x: real, u: Unit): (r: real)
    ensures 0.0 <= r < Factor(u)
    ensures r == x - InSeconds(Quotient(x, u) as real, u)
  {
    x - InSeconds(Quotient(x, u) as real, u)
  }

  /**
   * The greedy loop of Duration.build from position k of largest-first order onwards:
   * each unit up to minutes takes the floored quotient of what remains, and seconds
   * takes the rest. Zero quantities are left out.
   */
  function Greedy(k: nat, rem: real): Parts
    requires k <= 6
    decreases 6 - k
  {
    if k == 6 then
      if rem == 0.0 then [] else [(Seconds, rem)]
    else
      if Quotient(rem, UnitAt(k)) == 0 then Greedy(k + 1, rem)
      else [(UnitAt(k), Quotient(rem, UnitAt(k)) as real)] + Greedy(k + 1, Remainder(rem, UnitAt(k)))
  }

  /** Every part with its sign flipped. */
  function Negate(p: Parts): (r: Parts)
    ensures |r| == |p|
    ensures forall i | 0 <= i < |p| :: r[i] == (p[i].0, -p[i].1)
  {
    if p == [] then [] else [(p[0].0, -p[0].1)] + Negate(p[1..])
  }

  lemma {:induction false} TotalNegate(p: Parts)
    ensures Total(Negate(p)) == -Total(p)
  {
    if p != [] {
      assert Negate(p)[1..] == Negate(p[1..]);
      TotalNegate(p[1..]);
    }
  }

  /** Duration.build(value).parts */
  function Build(value: real): Parts {
    if value < 0.0 then Negate(Greedy(0, -value)) else Greedy(0, value)
  }

  /**
   * The normal form, stated without the algorithm: units largest first, quantities
   * positive, whole except in seconds, and what follows each unit in seconds stays
   * below the factor of the next larger unit, so that nothing could carry.
   */
  ghost predicate Canonical(p: Parts) {
    LargestFirst(p) && forall i | 0 <= i < |p| :: CanonicalAt(p, i)
  }

  /** The entry at i of a normal form, and what follows it. */
  ghost predicate CanonicalAt(p: Parts, i: nat)
    requires i < |p|
  {
    p[i].1 > 0.0 &&
    (p[i].0 != Seconds ==> IsWhole(p[i].1)) &&
    (Rank(p[i].0) > 0 ==> Total(p[i..]) < Factor(UnitAt(Rank(p[i].0) - 1)))
  }

  /**
   * One entry of a normal form: positive, whole above seconds, and with what follows
   * it below one of the next larger unit.
   */
  lemma CanonicalEntry(p: Parts, i: nat)
    requires Canonical(p) && i < |p|
    ensures p[i].1 > 0.0
    ensures p[i].0 != Seconds ==> IsWhole(p[i].1)
    ensures Rank(p[i].0) > 0 ==> Total(p[i..]) < Factor(UnitAt(Rank(p[i].0) - 1))
  {
    assert CanonicalAt(p, i);
  }

  /** The quantities of a normal form are positive. */
  lemma CanonicalPositive(p: Parts)
    requires Canonical(p)
    ensures forall i | 0 <= i < |p| :: p[i].1 > 0.0
  {
    forall i | 0 <= i < |p| ensures p[i].1 > 0.0 {
      CanonicalEntry(p, i);
    }
  }

  lemma CanonicalTail(p: Parts)
    requires Canonical(p) && p != []
    ensures Canonical(p[1..])
  {
    forall i | 0 <= i < |p[1..]| ensures CanonicalAt(p[1..], i) {
      assert CanonicalAt(p, i + 1);
      assert p[1..][i..] == p[i + 1..] && p[1..][i] == p[i + 1];
    }
  }

  /** What one greedy step takes out, or passes on when the unit does not fit. */
  lemma GreedyTake(k: nat, rem: real)
    requires k < 6 && Quotient(rem, UnitAt(k)) != 0
    ensures Greedy(k, rem) == [(UnitAt(k), Quotient(rem, UnitAt(k)) as real)] + Greedy(k + 1, Remainder(rem, UnitAt(k)))
  {
  }

  lemma TotalGreedyTake(k: nat, rem: real)
    requires k < 6 && Quotient(rem, UnitAt(k)) != 0
    ensures Greedy(k, rem) == [(UnitAt(k), Quotient(rem, UnitAt(k)) as real)] + Greedy(k + 1, Remainder(rem, UnitAt(k)))
    ensures Total(Greedy(k, rem))
         == InSeconds(Quotient(rem, UnitAt(k)) as real, UnitAt(k)) + Total(Greedy(k + 1, Remainder(rem, UnitAt(k))))
  {
    GreedyTake(k, rem);
    TotalCons(UnitAt(k), Quotient(rem, UnitAt(k)) as real, Greedy(k + 1, Remainder(rem, UnitAt(k))));
  }

  lemma GreedySkip(k: nat, rem: real)
    requires k < 6 && Quotient(rem, UnitAt(k)) == 0
    ensures Greedy(k, rem) == Greedy(k + 1, rem)
  {
  }

  /** The greedy remainder always adds back up to what was decomposed. */
  lemma {:induction false} GreedyTotal(k: nat, rem: real)
    requires k <= 6
    decreases 6 - k
    ensures Total(Greedy(k, rem)) == rem
  {
    if k < 6 {
      if Quotient(rem, UnitAt(k)) == 0 {
        GreedySkip(k, rem);
        GreedyTotal(k + 1, rem);
      } else {
        TotalGreedyTake(k, rem);
        GreedyTotal(k + 1, Remainder(rem, UnitAt(k)));
      }
    } else {
      assert Greedy(k, rem) == if rem == 0.0 then [] else [(Seconds, rem)];
    }
  }

  /** Normalising never changes the total: Duration.build(value) adds up to value. */
  lemma BuildTotal(value: real)
    ensures Total(Build(value)) == value
  {
    var a := if value < 0.0 then -value else value;
    GreedyTotal(0, a);
    TotalNegate(Greedy(0, a));
  }

  /** The greedy decomposition of a non-negative remainder is in normal form. */
  lemma {:induction false} GreedyCanonical(k: nat, rem: real)
    requires k <= 6
    requires rem >= 0.0
    requires k > 0 ==> rem < Factor(UnitAt(k - 1))
    decreases 6 - k
    ensures Canonical(Greedy(k, rem))
    ensures forall i | 0 <= i < |Greedy(k, rem)| :: Rank(Greedy(k, rem)[i].0) >= k
  {
    if k == 6 {
      GreedyLastCanonical(rem);
    } else if Quotient(rem, UnitAt(k)) == 0 {
      GreedySkip(k, rem);
      GreedyCanonical(k + 1, rem);
    } else {
      GreedyCanonical(k + 1, Remainder(rem, UnitAt(k)));
      GreedyTakeCanonical(k, rem, Greedy(k + 1, Remainder(rem, UnitAt(k))));
    }
  }

  lemma GreedyLastCanonical(rem: real)
    requires 0.0 <= rem < Factor(Minutes)
    ensures Canonical(Greedy(6, rem))
    ensures forall i | 0 <= i < |Greedy(6, rem)| :: Greedy(6, rem)[i].0 == Seconds
  {
    if rem != 0.0 {
      assert Greedy(6, rem) == [(Seconds, rem)];
      assert CanonicalAt(Greedy(6, rem), 0);
    }
  }

  /** One greedy step that takes a unit keeps the normal form. */
  lemma GreedyTakeCanonical(k: nat, rem: real, g: Parts)
    requires k < 6 && Quotient(rem, UnitAt(k)) != 0
    requires rem >= 0.0
    requires k > 0 ==> rem < Factor(UnitAt(k - 1))
    requires g == Greedy(k + 1, Remainder(rem, UnitAt(k)))
    requires Canonical(g) && forall i | 0 <= i < |g| :: Rank(g[i].0) >= k + 1
    ensures Canonical(Greedy(k, rem))
    ensures forall i | 0 <= i < |Greedy(k, rem)| :: Rank(Greedy(k, rem)[i].0) >= k
  {
    TotalGreedyTake(k, rem);
    GreedyTotal(k, rem);
    ConsCanonical(k, Quotient(rem, UnitAt(k)), g, Greedy(k, rem));
  }

  /** A whole positive quantity of the unit at k in front of a normal form of smaller units. */
  lemma ConsCanonical(k: nat, q: int, g: Parts, p: Parts)
    requires k < 6 && q > 0
    requires Canonical(g)
    requires forall i | 0 <= i < |g| :: Rank(g[i].0) >= k + 1
    requires p == [(UnitAt(k), q as real)] + g
    requires k > 0 ==> Total(p) < Factor(UnitAt(k - 1))
    ensures Canonical(p)
    ensures forall i | 0 <= i < |p| :: Rank(p[i].0) >= k
  {
    assert p[0..] == p;
    assert CanonicalAt(p, 0);
    forall i | 1 <= i < |p| ensures CanonicalAt(p, i) {
      assert p[i..] == g[i - 1..] && p[i] == g[i - 1];
      assert CanonicalAt(g, i - 1);
    }
  }

  /** A normal form is the greedy decomposition of its own total. */
  lemma {:induction false} GreedyUnique(k: nat, p: Parts)
    requires k <= 6
    requires Canonical(p)
    requires forall i | 0 <= i < |p| :: Rank(p[i].0) >= k
    decreases 6 - k
    ensures Greedy(k, Total(p)) == p
  {
    if k == 6 {
      GreedySeconds(p);
    } else if p != [] && p[0].0 == UnitAt(k) {
      CanonicalTail(p);
      HeadQuotient(k, p);
      TotalGreedyTake(k, Total(p));
      GreedyUnique(k + 1, p[1..]);
      assert p == [(UnitAt(k), p[0].1.Floor as real)] + p[1..];
    } else {
      SkippedQuotient(k, p);
      GreedySkip(k, Total(p));
      GreedyUnique(k + 1, p);
    }
  }

  /** A normal form of seconds alone is the last greedy step. */
  lemma GreedySeconds(p: Parts)
    requires Canonical(p)
    requires forall i | 0 <= i < |p| :: Rank(p[i].0) >= 6
    ensures Greedy(6, Total(p)) == p
  {
    if |p| > 0 {
      var x := p[0].1;
      CanonicalEntry(p, 0);
      assert |p| < 2 || Rank(p[0].0) < Rank(p[1].0);
      assert p == [(Seconds, x)];
    }
  }

  /** In a normal form led by the unit at k, the greedy step takes out exactly the leading part. */
  lemma HeadQuotient(k: nat, p: Parts)
    requires k < 6 && Canonical(p) && p != [] && p[0].0 == UnitAt(k)
    ensures Quotient(Total(p), UnitAt(k)) == p[0].1.Floor
    ensures Quotient(Total(p), UnitAt(k)) != 0
    ensures Remainder(Total(p), UnitAt(k)) == Total(p[1..])
  {
    TailBelowHead(k, p);
    CanonicalEntry(p, 0);
    TotalCons(p[0].0, p[0].1, p[1..]);
    assert p == [p[0]] + p[1..];
    var q := p[0].1.Floor;
    assert p[0].1 == q as real;
    assert Total(p) == InSeconds(q as real, UnitAt(k)) + Total(p[1..]);
    QuotientOfSum(Total(p), UnitAt(k), q, Total(p[1..]));
  }

  /** Whole units plus less than one more: the quotient is the whole units, the remainder the rest. */
  lemma QuotientOfSum(x: real, u: Unit, q: int, t: real)
    requires x == InSeconds(q as real, u) + t
    requires 0.0 <= t < Factor(u)
    ensures Quotient(x, u) == q
    ensures Remainder(x, u) == t
  {
    QuotientUnique(x, u, q);
  }

  /** What follows the leading unit of a normal form is less than one of that unit. */
  lemma TailBelowHead(k: nat, p: Parts)
    requires k < 6 && Canonical(p) && p != [] && p[0].0 == UnitAt(k)
    ensures 0.0 <= Total(p[1..]) < Factor(UnitAt(k))
  {
    CanonicalTail(p);
    CanonicalPositive(p[1..]);
    TotalNonNegative(p[1..]);
    if p[1..] != [] {
      assert p[1..][0..] == p[1..];
      CanonicalEntry(p[1..], 0);
      FactorAtMonotone(k, Rank(p[1].0) - 1);
    }
  }

  /** In a normal form of units smaller than the one at k, the greedy step takes out nothing. */
  lemma SkippedQuotient(k: nat, p: Parts)
    requires k < 6 && Canonical(p)
    requires forall i | 0 <= i < |p| :: Rank(p[i].0) >= k
    requires !(p != [] && p[0].0 == UnitAt(k))
    ensures Quotient(Total(p), UnitAt(k)) == 0
    ensures forall i | 0 <= i < |p| :: Rank(p[i].0) >= k + 1
  {
    CanonicalPositive(p);
    TotalNonNegative(p);
    if p != [] {
      assert p[0..] == p;
      CanonicalEntry(p, 0);
      FactorAtMonotone(k, Rank(p[0].0) - 1);
      RankOrdersFactors(p[0].0, UnitAt(k));
    }
    QuotientUnique(Total(p), UnitAt(k), 0);
  }

  /**
   * For a non-negative total, Duration.build yields the one normal form with that total:
   * a sequence of parts is build(value) exactly when it is canonical and adds up to value.
   */
  lemma BuildCharacterized(value: real, p: Parts)
    requires value >= 0.0
    ensures Build(value) == p <==> Canonical(p) && Total(p) == value
  {
    GreedyCanonical(0, value);
    GreedyTotal(0, value);
    if Canonical(p) && Total(p) == value {
      GreedyUnique(0, p);
    }
  }
}
