/**
 * The unit table of ActiveSupport::Duration (PARTS and PARTS_IN_SECONDS) and the
 * unit lookups that lib/active_support/duration/truncate.rb builds on it:
 * units_largest_first, next_smaller_unit and smaller_units.
 */
module Units {
  import opened Wrappers

  /** The seven units a duration is made of. */
  datatype Unit = Years | Months | Weeks | Days | Hours | Minutes | Seconds

  /** Seconds in one unit (PARTS_IN_SECONDS); months and years are Gregorian averages. */
  function Factor(u: Unit): (f: real)
    ensures f >= 1.0
  {
    match u
    case Seconds => 1.0
    case Minutes => 60.0
    case Hours => 3600.0
    case Days => 86400.0
    case Weeks => 604800.0
    case Months => 2629746.0
    case Years => 31556952.0
  }

  /**
   * q of unit u in seconds, q times the unit's factor, written out unit by unit so that
   * the arithmetic stays linear.
   */
  function InSeconds(q: real, u: Unit): real {
    match u
    case Seconds => q
    case Minutes => 60.0 * q
    case Hours => 3600.0 * q
    case Days => 86400.0 * q
    case Weeks => 604800.0 * q
    case Months => 2629746.0 * q
    case Years => 31556952.0 * q
  }

  /** s seconds as a quantity of unit u, s divided by the unit's factor, unit by unit. */
  function InUnits(s: real, u: Unit): real {
    match u
    case Seconds => s
    case Minutes => s / 60.0
    case Hours => s / 3600.0
    case Days => s / 86400.0
    case Weeks => s / 604800.0
    case Months => s / 2629746.0
    case Years => s / 31556952.0
  }

  /** The two conversions are the product and the quotient by the factor, and undo each other. */
  lemma Conversions(q: real, s: real, u: Unit)
    ensures InSeconds(q, u) == q * Factor(u)
    ensures InUnits(s, u) == s / Factor(u)
    ensures InSeconds(InUnits(s, u), u) == s
    ensures q > 0.0 ==> InSeconds(q, u) >= q
  {
  }

  /** Position of a unit in largest-first order (the index in PARTS). */
  function Rank(u: Unit): (r: nat)
    ensures r < 7
  {
    match u
    case Years => 0
    case Months => 1
    case Weeks => 2
    case Days => 3
    case Hours => 4
    case Minutes => 5
    case Seconds => 6
  }

  /** units_largest_first: PARTS_IN_SECONDS' keys reversed. */
  function UnitsLargestFirst(): (us: seq<Unit>)
    ensures |us| == 7
    ensures forall i | 0 <= i < |us| :: Rank(us[i]) == i
    ensures forall u: Unit :: us[Rank(u)] == u
    ensures forall i, j | 0 <= i < j < |us| :: Factor(us[i]) > Factor(us[j])
  {
    var us := [Years, Months, Weeks, Days, Hours, Minutes, Seconds];
    assert forall u: Unit :: us[Rank(u)] == u;
    us
  }

  /** The unit at position i of largest-first order. */
  function UnitAt(i: nat): (u: Unit)
    requires i < 7
    ensures Rank(u) == i
  {
    if i == 0 then Years
    else if i == 1 then Months
    else if i == 2 then Weeks
    else if i == 3 then Days
    else if i == 4 then Hours
    else if i == 5 then Minutes
    else Seconds
  }

  /** A unit is determined by its rank, and a larger rank means a smaller factor. */
  lemma RankOrdersFactors(u: Unit, v: Unit)
    ensures Rank(u) == Rank(v) <==> u == v
    ensures Rank(u) < Rank(v) <==> Factor(u) > Factor(v)
  {
  }

  /** Factors of the units at two positions, the later one no larger. */
  lemma {:induction false} FactorAtMonotone(i: nat, j: nat)
    requires i <= j < 7
    ensures Factor(UnitAt(i)) >= Factor(UnitAt(j))
  {
    RankOrdersFactors(UnitAt(i), UnitAt(j));
  }

  /**
   * A symbol given where the Ruby code expects a unit or an option key:
   * one of the seven units, :nsec, :usec, or any other symbol.
   */
  datatype Key = Part(unit: Unit) | Nsec | Usec | Other(name: string)

  /** The exceptions the modelled code raises. */
  datatype Error =
    | UnknownUnit(key: Key)   // ArgumentError "unknown unit" (next_smaller_unit, smaller_units)
    | InvalidKey(key: Key)    // ArgumentError from assert_valid_keys (change_cascade)
    | NotAPart(key: Key)      // TypeError: calculate_total_seconds finds no factor for the key
    | NsecAndUsec             // ArgumentError: both :nsec and :usec given
    | OutOfRange              // ArgumentError "argument out of range"
    | NilSeconds              // NoMethodError: `+=` on a nil seconds slot

  /** next_smaller_unit: the unit after k in PARTS, nil after seconds. */
  function NextSmallerUnit(k: Key): (r: Result<Option<Unit>, Error>)
    ensures r.Failure? <==> !k.Part?
    ensures r.Failure? ==> r.error == UnknownUnit(k)
    ensures r.Success? ==> (r.value.None? <==> k.unit == Seconds)
    ensures r.Success? && r.value.Some? ==> Rank(r.value.value) == Rank(k.unit) + 1
  {
    match k
    case Part(u) =>
      if Rank(u) + 1 < 7 then Success(Some(UnitAt(Rank(u) + 1))) else Success(None)
    case _ => Failure(UnknownUnit(k))
  }

  /** smaller_units: every unit strictly smaller than k, largest first. */
  function SmallerUnits(k: Key): (r: Result<seq<Unit>, Error>)
    ensures r.Failure? <==> !k.Part?
    ensures r.Failure? ==> r.error == UnknownUnit(k)
    ensures r.Success? ==> |r.value| == 6 - Rank(k.unit)
    ensures r.Success? ==> forall i | 0 <= i < |r.value| :: Rank(r.value[i]) == Rank(k.unit) + 1 + i
    ensures r.Success? ==> forall v: Unit :: v in r.value <==> Rank(v) > Rank(k.unit)
  {
    match k
    case Part(u) =>
      var us := UnitsLargestFirst()[Rank(u) + 1..];
      assert forall v: Unit :: v in us <==> Rank(v) > Rank(u) by {
        forall v: Unit ensures v in us <==> Rank(v) > Rank(u) {
          if Rank(v) > Rank(u) {
            assert us[Rank(v) - Rank(u) - 1] == v by { RankOrdersFactors(us[Rank(v) - Rank(u) - 1], v); }
          }
        }
      }
      Success(us)
    case _ => Failure(UnknownUnit(k))
  }
}
