/**
 * Duration#round and Duration#truncate: reducing a duration to a precision given as
 * a unit (by default the unit of its last part). Both compute a new whole quantity
 * for that unit and hand it to change_cascade, which resets every smaller unit.
 * round first folds the smaller parts into the unit as a fraction; truncate looks at
 * the unit's own part only.
 */
module Precision {
  import opened Wrappers
  import opened Units
  import opened PartsAlgebra
  import opened Decomposition
  import opened Durations
  import opened Cascade

  /** The `half:` option of Ruby's round: which way a tie goes. */
  datatype HalfMode = HalfUp | HalfDown | HalfEven

  /**
   * Ruby's round to an integer: the nearest integer, a tie going away from zero
   * (HalfUp, the default), toward zero (HalfDown) or to the even neighbour (HalfEven).
   */
  function RoundHalf(x: real, mode: HalfMode): (n: int)
    ensures -0.5 <= x - n as real <= 0.5
  {
    var a := if x < 0.0 then -x else x;
    var f := a.Floor;
    var frac := a - f as real;
    var m :=
      if frac > 0.5 then f + 1
      else if frac < 0.5 then f
      else match mode
        case HalfUp => f + 1
        case HalfDown => f
        case HalfEven => if f % 2 == 0 then f else f + 1;
    if x < 0.0 then -m else m
  }

  /**
   * The rounded integer is strictly nearer than one half unless x lies halfway between
   * two integers; a tie goes away from zero (HalfUp), toward zero (HalfDown) or to
   * the even neighbour (HalfEven).
   */
  lemma RoundHalfTies(x: real, mode: HalfMode)
    ensures x - x.Floor as real != 0.5 ==> -0.5 < x - RoundHalf(x, mode) as real < 0.5
    ensures x - x.Floor as real == 0.5 && mode == HalfUp ==>
      (if x > 0.0 then RoundHalf(x, mode) as real > x else RoundHalf(x, mode) as real < x)
    ensures x - x.Floor as real == 0.5 && mode == HalfDown ==>
      (if x > 0.0 then RoundHalf(x, mode) as real < x else RoundHalf(x, mode) as real > x)
    ensures x - x.Floor as real == 0.5 && mode == HalfEven ==> RoundHalf(x, mode) % 2 == 0
  {
    if x < 0.0 {
      NegativeFraction(x);
      TiesNonNegative(-x, mode);
      var n := RoundHalf(-x, mode);
      assert RoundHalf(x, mode) == -n;
      assert n % 2 == 0 ==> (-n) % 2 == 0;
    } else {
      TiesNonNegative(x, mode);
    }
  }

  lemma TiesNonNegative(x: real, mode: HalfMode)
    requires x >= 0.0
    ensures x - x.Floor as real != 0.5 ==> -0.5 < x - RoundHalf(x, mode) as real < 0.5
    ensures x - x.Floor as real == 0.5 && mode == HalfUp ==> RoundHalf(x, mode) as real > x
    ensures x - x.Floor as real == 0.5 && mode == HalfDown ==> RoundHalf(x, mode) as real < x
    ensures x - x.Floor as real == 0.5 && mode == HalfEven ==> RoundHalf(x, mode) % 2 == 0
  {
    var f := x.Floor;
    assert RoundHalf(x, mode) == f || RoundHalf(x, mode) == f + 1;
  }

  /** For x < 0 the fractional parts of x and -x are the same exactly at one half. */
  lemma NegativeFraction(x: real)
    requires x < 0.0
    ensures x - x.Floor as real == 0.5 <==> -x - (-x).Floor as real == 0.5
  {
    var f := x.Floor;
    if x - f as real == 0.5 {
      assert -x == (-f - 1) as real + 0.5;
      assert (-x).Floor == -f - 1;
    }
    var g := (-x).Floor;
    if -x - g as real == 0.5 {
      assert x == (-g - 1) as real + 0.5;
      assert x.Floor == -g - 1;
    }
  }

  /** The rounded integer is a nearest integer. */
  lemma RoundHalfNearest(x: real, mode: HalfMode, k: int)
    ensures Abs(x - RoundHalf(x, mode) as real) <= Abs(x - k as real)
  {
    var n := RoundHalf(x, mode);
    if k != n {
      assert k >= n + 1 || k <= n - 1;
    }
  }

  /** Closer than one half to an integer, every mode rounds to it. */
  lemma RoundHalfUnique(x: real, mode: HalfMode, n: int)
    requires n as real - 0.5 < x < n as real + 0.5
    ensures RoundHalf(x, mode) == n
  {
  }

  /** Exactly half past a non-negative integer, half up rounds away from it and half down to it. */
  lemma RoundHalfTie(x: real, n: int)
    requires n >= 0 && x == n as real + 0.5
    ensures RoundHalf(x, HalfUp) == n + 1
    ensures RoundHalf(x, HalfDown) == n
  {
    assert x.Floor == n;
  }

  function Abs(x: real): real {
    if x < 0.0 then -x else x
  }

  /** Ruby's truncate to an integer: drops the fraction, toward zero. */
  function TruncateTowardZero(x: real): (n: int)
    ensures x >= 0.0 ==> 0 <= n && n as real <= x < (n + 1) as real
    ensures x < 0.0 ==> n <= 0 && (n - 1) as real < x <= n as real
  {
    if x >= 0.0 then x.Floor else -((-x).Floor)
  }

  /** The precision asked for, or the unit of the last part by default. */
  function PrecisionKey(d: Duration, precision: Option<Key>): (k: Key)
    requires precision.None? ==> |d.parts| > 0
    ensures precision.Some? ==> k == precision.value
    ensures precision.None? ==> k == Part(d.parts[|d.parts| - 1].0)
  {
    if precision.Some? then precision.value else Part(SmallestUnit(d))
  }

  /** `parts[k] || 0` */
  function PartValue(d: Duration, k: Key): (x: real)
    ensures k.Part? && Lookup(d.parts, k.unit).Some? ==> x == Lookup(d.parts, k.unit).value
    ensures !(k.Part? && Lookup(d.parts, k.unit).Some?) ==> x == 0.0
  {
    if k.Part? && Lookup(d.parts, k.unit).Some? then Lookup(d.parts, k.unit).value else 0.0
  }

  /** The whole quantity round gives the precision unit: its part plus the smaller ones' fraction, rounded. */
  function RoundedValue(d: Duration, k: Key, mode: HalfMode): (n: int)
    requires k.Part?
    ensures Abs(PartValue(d, k) + SmallerPartsToFractionOf(d, k).value - n as real) <= 0.5
  {
    RoundHalf(PartValue(d, k) + SmallerPartsToFractionOf(d, k).value, mode)
  }

  /** The specification of Duration#round. */
  function Rounded(d: Duration, precision: Option<Key>, mode: HalfMode): (r: Result<Duration, Error>)
    requires precision.None? ==> |d.parts| > 0
    ensures r.Failure? <==> !PrecisionKey(d, precision).Part?
    ensures r.Failure? ==> r.error == UnknownUnit(PrecisionKey(d, precision))
    ensures r.Success? ==> Consistent(r.value)
  {
    var k := PrecisionKey(d, precision);
    if !k.Part? then Failure(UnknownUnit(k))
    else
      SingleOverride(d, k.unit, RoundedValue(d, k, mode) as real);
      Cascaded(d, [(k, Some(RoundedValue(d, k, mode) as real))])
  }

  /**
   * Duration#round as the Ruby code computes it: the part (or 0), plus the fraction
   * of the smaller parts, rounded, then change_cascade to that value.
   */
  method Round(d: Duration, precision: Option<Key>, mode: HalfMode) returns (r: Result<Duration, Error>)
    requires precision.None? ==> |d.parts| > 0
    ensures r == Rounded(d, precision, mode)
  {
    var k := PrecisionKey(d, precision);
    var newPartValue := PartValue(d, k);
    var fraction := SmallerPartsToFractionOf(d, k);
    if fraction.Failure? {
      return Failure(fraction.error);
    }
    newPartValue := newPartValue + fraction.value;
    var rounded := RoundHalf(newPartValue, mode);
    assert rounded == RoundedValue(d, k, mode);
    r := ChangeCascade(d, [(k, Some(rounded as real))]);
  }

  /**
   * Duration#truncate: the part (or 0) truncated toward zero, then change_cascade to
   * that value. A precision that is not a unit goes to change_cascade as it is.
   */
  function Truncate(d: Duration, precision: Option<Key>): (r: Result<Duration, Error>)
    requires precision.None? ==> |d.parts| > 0
    ensures PrecisionKey(d, precision).Part? ==> r.Success?
    ensures PrecisionKey(d, precision).Other? ==> r == Failure(InvalidKey(PrecisionKey(d, precision)))
    ensures PrecisionKey(d, precision).Nsec? || PrecisionKey(d, precision).Usec? ==>
      r == Cascaded(d, [(PrecisionKey(d, precision), Some(0.0))])
    ensures r.Success? ==> Consistent(r.value)
  {
    var k := PrecisionKey(d, precision);
    var t := TruncateTowardZero(PartValue(d, k));
    if k.Part? then SingleOverride(d, k.unit, t as real); Cascaded(d, [(k, Some(t as real))])
    else
      assert [(k, Some(t as real))][0].0 == k;
      Cascaded(d, [(k, Some(t as real))])
  }

  /** One unit override: no invalid key, no nanoseconds, so change_cascade succeeds. */
  lemma SingleOverride(d: Duration, u: Unit, x: real)
    ensures FirstInvalidKey([(Part(u), Some(x))]).None?
    ensures SubsecondShift([(Part(u), Some(x))]) == Success(None)
    ensures Cascaded(d, [(Part(u), Some(x))]).Success?
    ensures forall v: Unit :: HasKey([(Part(u), Some(x))], Part(v)) <==> v == u
    ensures forall v: Unit :: ResetAbove([(Part(u), Some(x))], v) <==> u != Weeks && Rank(u) < Rank(v)
  {
    var o := [(Part(u), Some(x))];
    assert o[1..] == [];
    assert Get(o, Nsec).None?;
    assert forall v: Unit :: HasKey(o, Part(v)) <==> v == u;
    forall v: Unit ensures ResetAbove(o, v) <==> u != Weeks && Rank(u) < Rank(v) {
      if u != Weeks && Rank(u) < Rank(v) {
        assert HasKey(o, Part(u));
      }
      if ResetAbove(o, v) {
        var w :| w != Weeks && Rank(w) < Rank(v) && HasKey(o, Part(w));
        assert w == u;
      }
    }
  }

  /**
   * change_cascade to one unit u with value x: u becomes x (dropped if 0), the units
   * below u are reset and dropped, the units above u keep their parts, weeks go.
   */
  lemma SingleCascade(d: Duration, u: Unit, x: real, v: Unit)
    requires u != Weeks
    ensures Cascaded(d, [(Part(u), Some(x))]).Success?
    ensures LargestFirst(Cascaded(d, [(Part(u), Some(x))]).value.parts)
    ensures Lookup(Cascaded(d, [(Part(u), Some(x))]).value.parts, v) == SingleSlot(d, u, x, v)
  {
    SingleOverride(d, u, x);
    CascadeLookup(d, [(Part(u), Some(x))], v);
    CascadeShape(d, [(Part(u), Some(x))]);
    RankOrdersFactors(u, v);
  }

  /** What change_cascade to one unit u with value x leaves under v. */
  function SingleSlot(d: Duration, u: Unit, x: real, v: Unit): Option<real> {
    if v == Weeks || Rank(v) > Rank(u) then None
    else if v == u then NonZero(Some(x))
    else NonZero(Lookup(d.parts, v))
  }

  /** The slots `us`, each with what change_cascade to u with value x leaves there, nil dropped. */
  function Retained(d: Duration, u: Unit, x: real, us: seq<Unit>): Parts {
    if us == [] then []
    else
      var q := SingleSlot(d, u, x, us[0]);
      (if q.Some? then [(us[0], q.value)] else []) + Retained(d, u, x, us[1..])
  }

  lemma {:induction false} RetainedUnits(d: Duration, u: Unit, x: real, us: seq<Unit>)
    ensures forall e | e in Retained(d, u, x, us) :: e.0 in us
  {
    if us != [] {
      RetainedUnits(d, u, x, us[1..]);
      var q := SingleSlot(d, u, x, us[0]);
      assert Retained(d, u, x, us) == (if q.Some? then [(us[0], q.value)] else []) + Retained(d, u, x, us[1..]);
      assert forall w | w in us[1..] :: w in us;
    }
  }

  lemma {:induction false} RetainedOrder(d: Duration, u: Unit, x: real, us: seq<Unit>)
    requires forall i, j | 0 <= i < j < |us| :: Rank(us[i]) < Rank(us[j])
    ensures LargestFirst(Retained(d, u, x, us))
  {
    if us != [] {
      RetainedOrder(d, u, x, us[1..]);
      RetainedUnits(d, u, x, us[1..]);
      var t := Retained(d, u, x, us[1..]);
      var q := SingleSlot(d, u, x, us[0]);
      var r := Retained(d, u, x, us);
      assert r == (if q.Some? then [(us[0], q.value)] else []) + t;
      if q.Some? {
        forall i, j | 0 <= i < j < |r| ensures Rank(r[i].0) < Rank(r[j].0) {
          assert r[j] == t[j - 1];
          if i > 0 {
            assert r[i] == t[i - 1];
          } else {
            assert r[j] in t;
            var k :| 0 <= k < |us[1..]| && us[1..][k] == r[j].0;
            assert us[k + 1] == r[j].0;
          }
        }
      }
    }
  }

  lemma {:induction false} RetainedLookup(d: Duration, u: Unit, x: real, us: seq<Unit>, v: Unit)
    requires forall i, j | 0 <= i < j < |us| :: us[i] != us[j]
    ensures Lookup(Retained(d, u, x, us), v) == if v in us then SingleSlot(d, u, x, v) else None
  {
    if us != [] {
      RetainedLookup(d, u, x, us[1..], v);
      var t := Retained(d, u, x, us[1..]);
      var q := SingleSlot(d, u, x, us[0]);
      var r := Retained(d, u, x, us);
      assert r == (if q.Some? then [(us[0], q.value)] else []) + t;
      if q.Some? {
        assert r[0] == (us[0], q.value) && r[1..] == t;
      } else {
        assert r == t;
      }
      assert v in us <==> v in us[1..] || v == us[0];
      if v == us[0] {
        assert v !in us[1..];
        RetainedUnits(d, u, x, us[1..]);
        LookupAbsent(t, v);
      }
    }
  }

  lemma {:induction false} LookupAbsent(p: Parts, v: Unit)
    requires forall e | e in p :: e.0 != v
    ensures Lookup(p, v).None?
  {
    if p != [] {
      assert p[0] in p;
      assert forall e | e in p[1..] :: e in p;
      LookupAbsent(p[1..], v);
    }
  }

  /**
   * A reference definition of change_cascade to one unit u other than weeks: the
   * slots down to u, the larger ones with their old parts and u with x, nil and zero
   * dropped.
   */
  lemma SingleCascadeParts(d: Duration, u: Unit, x: real)
    requires u != Weeks
    ensures Cascaded(d, [(Part(u), Some(x))]).Success?
    ensures Cascaded(d, [(Part(u), Some(x))]).value.parts == Retained(d, u, x, SlotUnits())
  {
    var us := SlotUnits();
    SlotUnitsOrdered();
    SingleCascade(d, u, x, u);
    var p := Cascaded(d, [(Part(u), Some(x))]).value.parts;
    forall v: Unit ensures Lookup(p, v) == Lookup(Retained(d, u, x, us), v) {
      SingleRetained(d, u, x, v);
    }
    RetainedOrder(d, u, x, us);
    PartsByLookup(p, Retained(d, u, x, us));
  }

  /** The slots, largest first. */
  lemma SlotUnitsOrdered()
    ensures forall i, j | 0 <= i < j < |SlotUnits()| :: Rank(SlotUnits()[i]) < Rank(SlotUnits()[j])
  {
    var us := SlotUnits();
    assert us == [Years, Months, Days, Hours, Minutes, Seconds];
  }

  lemma SingleRetained(d: Duration, u: Unit, x: real, v: Unit)
    requires u != Weeks
    requires forall i, j | 0 <= i < j < |SlotUnits()| :: Rank(SlotUnits()[i]) < Rank(SlotUnits()[j])
    ensures Cascaded(d, [(Part(u), Some(x))]).Success?
    ensures Lookup(Cascaded(d, [(Part(u), Some(x))]).value.parts, v) == Lookup(Retained(d, u, x, SlotUnits()), v)
  {
    SingleCascade(d, u, x, v);
    RetainedLookup(d, u, x, SlotUnits(), v);
  }

  /**
   * On largest-first parts, the fraction round adds is the total of the parts after the
   * split at u, in units of u.
   */
  lemma RoundedAt(d: Duration, u: Unit, mode: HalfMode, i: nat)
    requires LargestFirst(d.parts) && i <= |d.parts|
    requires forall j | 0 <= j < i :: Rank(d.parts[j].0) <= Rank(u)
    requires forall j | i <= j < |d.parts| :: Rank(d.parts[j].0) > Rank(u)
    ensures Rounded(d, Some(Part(u)), mode)
         == Cascaded(d, [(Part(u), Some(RoundHalf(PartValue(d, Part(u)) + InUnits(Total(d.parts[i..]), u), mode) as real))])
  {
    SmallerPartsAt(d, u, i);
    FractionValue(d, u);
  }

  /**
   * round to a unit other than weeks: that unit takes the rounded value of its part
   * plus the smaller parts' fraction; smaller units are gone; larger ones are kept.
   */
  lemma RoundEffect(d: Duration, u: Unit, mode: HalfMode, v: Unit)
    requires u != Weeks
    ensures Rounded(d, Some(Part(u)), mode).Success?
    ensures Lookup(Rounded(d, Some(Part(u)), mode).value.parts, v) ==
      if v == Weeks || Rank(v) > Rank(u) then None
      else if v == u then NonZero(Some(RoundedValue(d, Part(u), mode) as real))
      else NonZero(Lookup(d.parts, v))
  {
    SingleCascade(d, u, RoundedValue(d, Part(u), mode) as real, v);
  }

  /**
   * truncate to a unit other than weeks: that unit takes its own part truncated
   * toward zero; smaller units are gone; larger ones are kept.
   */
  lemma TruncateEffect(d: Duration, u: Unit, v: Unit)
    requires u != Weeks
    ensures Truncate(d, Some(Part(u))).Success?
    ensures Lookup(Truncate(d, Some(Part(u))).value.parts, v) ==
      if v == Weeks || Rank(v) > Rank(u) then None
      else if v == u then NonZero(Some(TruncateTowardZero(PartValue(d, Part(u))) as real))
      else NonZero(Lookup(d.parts, v))
  {
    SingleCascade(d, u, TruncateTowardZero(PartValue(d, Part(u))) as real, v);
  }

  /** Rounding or truncating to weeks only drops the weeks part. */
  lemma WeeksPrecision(d: Duration, mode: HalfMode)
    ensures Rounded(d, Some(Part(Weeks)), mode) == Cascaded(d, [])
    ensures Truncate(d, Some(Part(Weeks))) == Cascaded(d, [])
  {
    WeeksOverride(d, RoundedValue(d, Part(Weeks), mode) as real);
    WeeksOverride(d, TruncateTowardZero(PartValue(d, Part(Weeks))) as real);
  }

  lemma WeeksOverride(d: Duration, x: real)
    ensures Cascaded(d, [(Part(Weeks), Some(x))]) == Cascaded(d, [])
  {
    WeeksIgnored(d, [], Some(x));
    assert [] + [(Part(Weeks), Some(x))] == [(Part(Weeks), Some(x))];
  }

  /**
   * truncate never carries smaller parts in: two durations that agree on the unit
   * and every larger one truncate to the same result.
   */
  lemma TruncateIgnoresSmaller(d1: Duration, d2: Duration, u: Unit)
    requires u != Weeks
    requires forall v: Unit :: Rank(v) <= Rank(u) ==> Lookup(d1.parts, v) == Lookup(d2.parts, v)
    ensures Truncate(d1, Some(Part(u))) == Truncate(d2, Some(Part(u)))
  {
    var x := TruncateTowardZero(PartValue(d1, Part(u))) as real;
    assert x == TruncateTowardZero(PartValue(d2, Part(u))) as real;
    var o := [(Part(u), Some(x))];
    SingleOverride(d1, u, x);
    forall v: Unit ensures SlotValue(d1, o, v) == SlotValue(d2, o, v) {
      RankOrdersFactors(u, v);
    }
    assert Slots(d1, o) == Slots(d2, o);
  }

  /**
   * In normal form the fraction round adds is below one, so rounding to a unit above
   * seconds moves its whole part up by at most one: ties and larger fractions carry
   * one under the default HalfUp, smaller fractions carry nothing.
   */
  lemma RoundCarriesAtMostOne(d: Duration, u: Unit)
    requires Canonical(d.parts) && u != Seconds
    ensures RoundedValue(d, Part(u), HalfUp) as real == PartValue(d, Part(u)) + (if SmallerPartsToFractionOf(d, Part(u)).value >= 0.5 then 1.0 else 0.0)
  {
    FractionBelowOne(d, u);
    CanonicalPartWhole(d, u);
    RoundCarry(d, u);
  }

  lemma RoundCarry(d: Duration, u: Unit)
    requires PartValue(d, Part(u)) >= 0.0 && IsWhole(PartValue(d, Part(u)))
    requires 0.0 <= SmallerPartsToFractionOf(d, Part(u)).value < 1.0
    ensures RoundedValue(d, Part(u), HalfUp) as real == PartValue(d, Part(u)) + (if SmallerPartsToFractionOf(d, Part(u)).value >= 0.5 then 1.0 else 0.0)
  {
    WholePlusFraction(PartValue(d, Part(u)), SmallerPartsToFractionOf(d, Part(u)).value);
  }

  /** In normal form a part above seconds is a positive whole number (or absent, 0). */
  lemma CanonicalPartWhole(d: Duration, u: Unit)
    requires Canonical(d.parts) && u != Seconds
    ensures PartValue(d, Part(u)) >= 0.0 && IsWhole(PartValue(d, Part(u)))
  {
    forall i | 0 <= i < |d.parts| ensures d.parts[i].1 > 0.0 && (d.parts[i].0 != Seconds ==> IsWhole(d.parts[i].1)) {
      CanonicalEntry(d.parts, i);
    }
    WholeLookup(d.parts, u);
  }

  lemma {:induction false} WholeLookup(p: Parts, u: Unit)
    requires forall i | 0 <= i < |p| :: p[i].1 > 0.0 && (p[i].0 != Seconds ==> IsWhole(p[i].1))
    requires u != Seconds
    ensures Lookup(p, u).Some? ==> Lookup(p, u).value > 0.0 && IsWhole(Lookup(p, u).value)
  {
    if p != [] && p[0].0 != u {
      WholeLookup(p[1..], u);
    }
  }

  lemma WholePlusFraction(q: real, f: real)
    requires q >= 0.0 && IsWhole(q) && 0.0 <= f < 1.0
    ensures RoundHalf(q + f, HalfUp) as real == q + (if f >= 0.5 then 1.0 else 0.0)
  {
    assert (q + f).Floor == q.Floor;
  }

  /** With no smaller parts to fold in and a whole part, round and truncate agree. */
  lemma RoundIsTruncateWhenWhole(d: Duration, u: Unit, mode: HalfMode)
    requires SmallerPartsToFractionOf(d, Part(u)).value == 0.0
    requires IsWhole(PartValue(d, Part(u)))
    ensures Rounded(d, Some(Part(u)), mode) == Truncate(d, Some(Part(u)))
  {
    var q := PartValue(d, Part(u));
    assert RoundedValue(d, Part(u), mode) == RoundHalf(q, mode);
    WholeRounds(q, mode);
  }

  /** A whole number rounds, in every mode, and truncates to itself. */
  lemma WholeRounds(q: real, mode: HalfMode)
    requires IsWhole(q)
    ensures RoundHalf(q, mode) == q.Floor && TruncateTowardZero(q) == q.Floor
  {
    if q < 0.0 {
      assert (-q).Floor == -q.Floor;
    }
  }
}
