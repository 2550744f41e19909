/**
 * Duration#change_cascade: overrides some parts and resets every part below the
 * largest overridden one, the way Time#change resets the smaller fields of a time.
 * Only six slots exist (years, months, days, hours, minutes, seconds): weeks are
 * neither kept nor settable. A nanosecond option adds its fraction of a second.
 */
module Cascade {
  import opened Wrappers
  import opened Units
  import opened PartsAlgebra
  import opened Durations

  /** The slots change_cascade fills, in order. */
  function SlotUnits(): (us: seq<Unit>)
    ensures |us| == 6
    ensures forall u: Unit :: u in us <==> u != Weeks
  {
    var us := [Years, Months, Days, Hours, Minutes, Seconds];
    assert us[0] == Years && us[1] == Months && us[2] == Days && us[3] == Hours && us[4] == Minutes && us[5] == Seconds;
    assert forall i | 0 <= i < |us| :: us[i] != Weeks;
    us
  }

  /** assert_valid_keys: the first key that is neither a unit nor :nsec nor :usec. */
  function FirstInvalidKey(o: RawParts): (r: Option<Key>)
    ensures r.None? <==> forall i | 0 <= i < |o| :: !o[i].0.Other?
    ensures r.Some? ==> exists i :: 0 <= i < |o| && o[i].0 == r.value && r.value.Other?
                                 && forall j | 0 <= j < i :: !o[j].0.Other?
  {
    if o == [] then None
    else if o[0].0.Other? then Some(o[0].0)
    else
      var r := FirstInvalidKey(o[1..]);
      if r.Some? then
        var i :| 0 <= i < |o[1..]| && o[1..][i].0 == r.value && r.value.Other? && forall j | 0 <= j < i :: !o[1..][j].0.Other?;
        assert o[i + 1] == o[1..][i];
        assert forall j | 0 <= j < i + 1 :: !o[j].0.Other? by {
          forall j | 0 < j < i + 1 ensures !o[j].0.Other? {
            assert o[j] == o[1..][j - 1];
          }
        }
        r
      else
        assert forall j | 1 <= j < |o| :: o[j] == o[1..][j - 1];
        r
  }

  /** `options.fetch(k, default)`: the given value, even nil, when k is present. */
  function Fetch(o: RawParts, k: Key, default: Option<real>): (r: Option<real>)
    ensures HasKey(o, k) ==> r == Get(o, k)
    ensures !HasKey(o, k) ==> r == default
  {
    if HasKey(o, k) then Get(o, k) else default
  }

  /** Some slot larger than u is given in the options, so u is reset. */
  predicate ResetAbove(o: RawParts, u: Unit) {
    exists v: Unit :: v != Weeks && Rank(v) < Rank(u) && HasKey(o, Part(v))
  }

  /** A slot's value: the override, else 0 below an override, else the old part. */
  function SlotValue(d: Duration, o: RawParts, u: Unit): Option<real> {
    if HasKey(o, Part(u)) then Get(o, Part(u))
    else if ResetAbove(o, u) then Some(0.0)
    else Lookup(d.parts, u)
  }

  /** The six slots before the nanosecond adjustment. */
  function Slots(d: Duration, o: RawParts): (s: RawParts)
    ensures |s| == 6
    ensures forall i | 0 <= i < 6 :: s[i] == (Part(SlotUnits()[i]), SlotValue(d, o, SlotUnits()[i]))
  {
    [ (Part(Years), SlotValue(d, o, Years)),
      (Part(Months), SlotValue(d, o, Months)),
      (Part(Days), SlotValue(d, o, Days)),
      (Part(Hours), SlotValue(d, o, Hours)),
      (Part(Minutes), SlotValue(d, o, Minutes)),
      (Part(Seconds), SlotValue(d, o, Seconds)) ]
  }

  /**
   * What the nanosecond option adds to the seconds slot: nothing without :nsec
   * (whatever :usec says); an error when :usec is given too or when nsec/1000 reaches
   * 1,000,000; otherwise nsec/10^9 seconds.
   */
  function SubsecondShift(o: RawParts): (r: Result<Option<real>, Error>)
    ensures Get(o, Nsec).None? ==> r == Success(None)
    ensures Get(o, Nsec).Some? && Get(o, Usec).Some? ==> r == Failure(NsecAndUsec)
    ensures Get(o, Nsec).Some? && Get(o, Usec).None? ==>
      (r == Failure(OutOfRange) <==> Get(o, Nsec).value >= 1000000000.0)
  {
    match Get(o, Nsec)
    case None => Success(None)
    case Some(nsec) =>
      if Get(o, Usec).Some? then Failure(NsecAndUsec)
      else if nsec / 1000.0 >= 1000000.0 then Failure(OutOfRange)
      else Success(Some(nsec / 1000.0 / 1000000.0))
  }

  /** A successful shift is the nanoseconds as a fraction of a second, below one second. */
  lemma ShiftFraction(o: RawParts)
    requires SubsecondShift(o).Success? && SubsecondShift(o).value.Some?
    ensures Get(o, Nsec).Some?
    ensures SubsecondShift(o).value.value * 1000000000.0 == Get(o, Nsec).value
    ensures SubsecondShift(o).value.value < 1.0
  {
  }

  /** The specification of change_cascade. */
  function Cascaded(d: Duration, o: RawParts): (r: Result<Duration, Error>)
    ensures r.Success? ==> Consistent(r.value)
  {
    match FirstInvalidKey(o)
    case Some(k) => Failure(InvalidKey(k))
    case None =>
      match SubsecondShift(o)
      case Failure(e) => Failure(e)
      case Success(shift) => Adjusted(Slots(d, o), shift)
  }

  /**
   * The outcomes of change_cascade: InvalidKey for the first key that is not a unit,
   * :nsec or :usec; then the sub-second errors; NilSeconds when a shift meets an
   * empty seconds slot; success otherwise.
   */
  lemma CascadeOutcome(d: Duration, o: RawParts)
    ensures Cascaded(d, o).Failure? && Cascaded(d, o).error.InvalidKey? <==> exists i :: 0 <= i < |o| && o[i].0.Other?
    ensures Cascaded(d, o).Failure? && Cascaded(d, o).error.InvalidKey? ==>
      Cascaded(d, o).error == InvalidKey(FirstInvalidKey(o).value)
    ensures FirstInvalidKey(o).None? && SubsecondShift(o).Failure? ==> Cascaded(d, o) == Failure(SubsecondShift(o).error)
    ensures Cascaded(d, o) == Failure(NilSeconds) <==>
      FirstInvalidKey(o).None? && SubsecondShift(o).Success? && SubsecondShift(o).value.Some? && SlotValue(d, o, Seconds).None?
    ensures Cascaded(d, o).Success? <==>
      FirstInvalidKey(o).None? && SubsecondShift(o).Success? &&
      (SubsecondShift(o).value.Some? ==> SlotValue(d, o, Seconds).Some?)
  {
    if FirstInvalidKey(o).Some? {
      CascadeOfInvalid(d, o);
    } else if SubsecondShift(o).Failure? {
      CascadeOfShiftError(d, o);
    } else {
      CascadeOfSlots(d, o, SubsecondShift(o).value);
    }
  }

  /** Keyed by the six slots, in order. */
  predicate SlotKeyed(s: RawParts) {
    |s| == 6 && forall i | 0 <= i < 6 :: s[i].0 == Part(SlotUnits()[i])
  }

  /** The slots with the sub-second shift added to seconds. */
  function AdjustedSlots(s: RawParts, shift: Option<real>): (t: RawParts)
    requires SlotKeyed(s)
    requires shift.Some? ==> s[5].1.Some?
    ensures SlotKeyed(t)
    ensures forall i | 0 <= i < 5 :: t[i] == s[i]
    ensures t[5].1 == if shift.Some? then Some(s[5].1.value + shift.value) else s[5].1
  {
    if shift.None? then s else s[5 := (Part(Seconds), Some(s[5].1.value + shift.value))]
  }

  /** `+=` on the seconds slot, then from_parts without normalizing. */
  function Adjusted(s: RawParts, shift: Option<real>): (r: Result<Duration, Error>)
    requires SlotKeyed(s)
    ensures r == Failure(NilSeconds) <==> shift.Some? && s[5].1.None?
    ensures r.Success? <==> !(shift.Some? && s[5].1.None?)
    ensures r.Success? ==> Consistent(r.value)
  {
    if shift.Some? && s[5].1.None? then Failure(NilSeconds)
    else
      assert UnitKeyed(AdjustedSlots(s, shift));
      FromParts(AdjustedSlots(s, shift), false)
  }

  /** Where a unit sits among the slots. */
  function SlotIndex(u: Unit): (i: nat)
    requires u != Weeks
    ensures i < 6 && SlotUnits()[i] == u
  {
    match u
    case Years => 0
    case Months => 1
    case Days => 2
    case Hours => 3
    case Minutes => 4
    case Seconds => 5
  }

  /** Looking a unit up among the slots. */
  lemma GetSlots(t: RawParts, u: Unit)
    requires SlotKeyed(t)
    ensures DistinctKeys(t)
    ensures Get(t, Part(u)) == if u == Weeks then None else t[SlotIndex(u)].1
  {
    var us := SlotUnits();
    assert t[0].0 == Part(Years) && t[1].0 == Part(Months) && t[2].0 == Part(Days);
    assert t[3].0 == Part(Hours) && t[4].0 == Part(Minutes) && t[5].0 == Part(Seconds);
    if u == Weeks {
      HasKeyAt(t, Part(Weeks));
      GetAbsent(t, Part(Weeks));
    } else {
      GetAt(t, SlotIndex(u));
    }
  }

  lemma ResetChain(o: RawParts)
    ensures !ResetAbove(o, Years)
    ensures ResetAbove(o, Months) == HasKey(o, Part(Years))
    ensures ResetAbove(o, Days) == (ResetAbove(o, Months) || HasKey(o, Part(Months)))
    ensures ResetAbove(o, Hours) == (ResetAbove(o, Days) || HasKey(o, Part(Days)))
    ensures ResetAbove(o, Minutes) == (ResetAbove(o, Hours) || HasKey(o, Part(Hours)))
    ensures ResetAbove(o, Seconds) == (ResetAbove(o, Minutes) || HasKey(o, Part(Minutes)))
  {
    assert HasKey(o, Part(Years)) ==> ResetAbove(o, Months) by {
      if HasKey(o, Part(Years)) { assert Rank(Years) < Rank(Months); }
    }
    assert HasKey(o, Part(Months)) ==> ResetAbove(o, Days) && ResetAbove(o, Hours) && ResetAbove(o, Minutes) && ResetAbove(o, Seconds);
    assert HasKey(o, Part(Days)) ==> ResetAbove(o, Hours) && ResetAbove(o, Minutes) && ResetAbove(o, Seconds);
    assert HasKey(o, Part(Hours)) ==> ResetAbove(o, Minutes) && ResetAbove(o, Seconds);
    assert HasKey(o, Part(Minutes)) ==> ResetAbove(o, Seconds);
    assert ResetAbove(o, Months) ==> ResetAbove(o, Days);
    assert ResetAbove(o, Days) ==> ResetAbove(o, Hours);
    assert ResetAbove(o, Hours) ==> ResetAbove(o, Minutes);
    assert ResetAbove(o, Minutes) ==> ResetAbove(o, Seconds);
  }

  /**
   * The fetches of change_cascade, step by step as the Ruby code does them: each
   * slot is fetched from the options with the old part (or 0 once `reset` is set) as
   * default, and `reset` becomes set once a slot is given.
   */
  method FetchSlots(d: Duration, options: RawParts) returns (s: RawParts)
    ensures s == Slots(d, options)
  {
    ResetChain(options);
    var reset := false;
    var years := Fetch(options, Part(Years), Lookup(d.parts, Years));
    reset := reset || HasKey(options, Part(Years));
    var months := Fetch(options, Part(Months), if reset then Some(0.0) else Lookup(d.parts, Months));
    reset := reset || HasKey(options, Part(Months));
    var days := Fetch(options, Part(Days), if reset then Some(0.0) else Lookup(d.parts, Days));
    reset := reset || HasKey(options, Part(Days));
    var hours := Fetch(options, Part(Hours), if reset then Some(0.0) else Lookup(d.parts, Hours));
    reset := reset || HasKey(options, Part(Hours));
    var minutes := Fetch(options, Part(Minutes), if reset then Some(0.0) else Lookup(d.parts, Minutes));
    reset := reset || HasKey(options, Part(Minutes));
    var seconds := Fetch(options, Part(Seconds), if reset then Some(0.0) else Lookup(d.parts, Seconds));
    s := [(Part(Years), years), (Part(Months), months), (Part(Days), days),
          (Part(Hours), hours), (Part(Minutes), minutes), (Part(Seconds), seconds)];
  }

  /**
   * Duration#change_cascade: the key check, the fetches, then the nanosecond
   * option, which is refused beside :usec or at a million microseconds and is added
   * to the seconds slot with `+=` (an error on an empty slot).
   */
  method ChangeCascade(d: Duration, options: RawParts) returns (r: Result<Duration, Error>)
    ensures r == Cascaded(d, options)
  {
    var invalid := FirstInvalidKey(options);
    if invalid.Some? {
      CascadeOfInvalid(d, options);
      return Failure(InvalidKey(invalid.value));
    }
    var newParts := FetchSlots(d, options);
    var newUsec: Option<real> := None;
    var newNsec := Get(options, Nsec);
    if newNsec.Some? {
      if Get(options, Usec).Some? {
        CascadeOfShiftError(d, options);
        return Failure(NsecAndUsec);
      }
      newUsec := Some(newNsec.value / 1000.0);
    }
    if newUsec.Some? {
      if newUsec.value >= 1000000.0 {
        CascadeOfShiftError(d, options);
        return Failure(OutOfRange);
      }
      ShiftOfNsec(options, newNsec.value);
      var seconds := newParts[5].1;
      if seconds.None? {
        CascadeOfSlots(d, options, Some(newUsec.value / 1000000.0));
        return Failure(NilSeconds);
      }
      newParts := newParts[5 := (Part(Seconds), Some(seconds.value + newUsec.value / 1000000.0))];
      CascadeOfSlots(d, options, Some(newUsec.value / 1000000.0));
    } else {
      CascadeOfSlots(d, options, None);
    }
    r := FromParts(newParts, false);
  }

  /** A valid :nsec alone shifts the seconds by nsec / 1000 microseconds. */
  lemma ShiftOfNsec(o: RawParts, nsec: real)
    requires Get(o, Nsec) == Some(nsec) && Get(o, Usec).None? && nsec / 1000.0 < 1000000.0
    ensures SubsecondShift(o) == Success(Some(nsec / 1000.0 / 1000000.0))
  {
  }

  lemma CascadeOfInvalid(d: Duration, o: RawParts)
    requires FirstInvalidKey(o).Some?
    ensures Cascaded(d, o) == Failure(InvalidKey(FirstInvalidKey(o).value))
  {
  }

  lemma CascadeOfShiftError(d: Duration, o: RawParts)
    requires FirstInvalidKey(o).None? && SubsecondShift(o).Failure?
    ensures Cascaded(d, o) == Failure(SubsecondShift(o).error)
  {
  }

  /**
   * With valid keys and a well-formed shift, change_cascade is from_parts of the
   * adjusted slots, or NilSeconds when there is a shift and no seconds slot.
   */
  lemma CascadeOfSlots(d: Duration, o: RawParts, shift: Option<real>)
    requires FirstInvalidKey(o).None? && SubsecondShift(o) == Success(shift)
    ensures shift.Some? && Slots(d, o)[5].1.None? ==> Cascaded(d, o) == Failure(NilSeconds)
    ensures shift.Some? ==> Slots(d, o)[5].1.Some? ==> Cascaded(d, o) == FromParts(AdjustedSlots(Slots(d, o), shift), false)
    ensures shift.None? ==> Cascaded(d, o) == FromParts(Slots(d, o), false)
  {
    assert SlotKeyed(Slots(d, o));
  }

  /**
   * What change_cascade leaves under each unit: never weeks; under seconds the
   * seconds slot plus the nanosecond shift; under every other unit its slot; nil and
   * zero values dropped.
   */
  lemma CascadeLookup(d: Duration, o: RawParts, u: Unit)
    requires Cascaded(d, o).Success?
    ensures Lookup(Cascaded(d, o).value.parts, u) ==
      if u == Weeks then None
      else if u == Seconds && SubsecondShift(o).value.Some? then
        NonZero(Some(SlotValue(d, o, Seconds).value + SubsecondShift(o).value.value))
      else NonZero(SlotValue(d, o, u))
  {
    var t := AdjustedSlots(Slots(d, o), SubsecondShift(o).value);
    GetSlots(t, u);
    FromPartsLookup(t, u);
  }

  /**
   * The three regions of change_cascade, for every unit but weeks (and for seconds
   * when no :nsec is given): a given unit takes its override; a unit below a given
   * one is reset to 0 and so dropped; a unit above every given one keeps its part.
   */
  lemma CascadeEffect(d: Duration, o: RawParts, u: Unit)
    requires Cascaded(d, o).Success?
    requires u != Weeks && (u == Seconds ==> Get(o, Nsec).None?)
    ensures HasKey(o, Part(u)) ==> Lookup(Cascaded(d, o).value.parts, u) == NonZero(Get(o, Part(u)))
    ensures !HasKey(o, Part(u)) && ResetAbove(o, u) ==> Lookup(Cascaded(d, o).value.parts, u).None?
    ensures !HasKey(o, Part(u)) && !ResetAbove(o, u) ==>
      Lookup(Cascaded(d, o).value.parts, u) == NonZero(Lookup(d.parts, u))
  {
    CascadeLookup(d, o, u);
  }

  /** The result of change_cascade is largest first and has no weeks. */
  lemma CascadeShape(d: Duration, o: RawParts)
    requires Cascaded(d, o).Success?
    ensures LargestFirst(Cascaded(d, o).value.parts)
    ensures forall i | 0 <= i < |Cascaded(d, o).value.parts| :: Cascaded(d, o).value.parts[i].0 != Weeks
  {
    var shift := SubsecondShift(o).value;
    CascadeOfSlots(d, o, shift);
    SlotPartsShape(AdjustedSlots(Slots(d, o), shift));
  }

  /** from_parts of slot-keyed entries is largest first and has no weeks. */
  lemma SlotPartsShape(t: RawParts)
    requires SlotKeyed(t) && FromParts(t, false).Success?
    ensures LargestFirst(FromParts(t, false).value.parts)
    ensures forall i | 0 <= i < |FromParts(t, false).value.parts| :: FromParts(t, false).value.parts[i].0 != Weeks
  {
    var us := SlotUnits();
    assert Rank(us[0]) == 0 && Rank(us[1]) == 1 && Rank(us[2]) == 3;
    assert Rank(us[3]) == 4 && Rank(us[4]) == 5 && Rank(us[5]) == 6;
    assert forall i | 0 <= i < 6 :: t[i].0.unit == us[i];
    FromPartsOrder(t);
    var p := FromParts(t, false).value.parts;
    forall i | 0 <= i < |p| ensures p[i].0 != Weeks {
      FromPartsMembers(t, p[i].0, p[i].1);
      var j :| 0 <= j < |t| && t[j] == (Part(p[i].0), Some(p[i].1));
    }
  }

  /**
   * change_cascade reads the options only through their invalid keys, :nsec (and
   * :usec alongside it) and the six slot units: options that agree on those give the
   * same result.
   */
  lemma CascadeCongruence(d: Duration, o1: RawParts, o2: RawParts)
    requires FirstInvalidKey(o1) == FirstInvalidKey(o2)
    requires Get(o1, Nsec) == Get(o2, Nsec)
    requires Get(o1, Nsec).Some? ==> Get(o1, Usec) == Get(o2, Usec)
    requires forall v: Unit :: v != Weeks ==> HasKey(o1, Part(v)) == HasKey(o2, Part(v))
    requires forall v: Unit :: v != Weeks ==> Get(o1, Part(v)) == Get(o2, Part(v))
    ensures Cascaded(d, o1) == Cascaded(d, o2)
  {
    SlotsAgree(d, o1, o2);
    assert SubsecondShift(o1) == SubsecondShift(o2);
  }

  lemma ResetAboveAgree(o1: RawParts, o2: RawParts, u: Unit)
    requires forall v: Unit :: v != Weeks ==> HasKey(o1, Part(v)) == HasKey(o2, Part(v))
    ensures ResetAbove(o1, u) == ResetAbove(o2, u)
  {
    if ResetAbove(o1, u) {
      var v :| v != Weeks && Rank(v) < Rank(u) && HasKey(o1, Part(v));
      assert HasKey(o2, Part(v));
    }
    if ResetAbove(o2, u) {
      var v :| v != Weeks && Rank(v) < Rank(u) && HasKey(o2, Part(v));
      assert HasKey(o1, Part(v));
    }
  }

  lemma SlotsAgree(d: Duration, o1: RawParts, o2: RawParts)
    requires forall v: Unit :: v != Weeks ==> HasKey(o1, Part(v)) == HasKey(o2, Part(v))
    requires forall v: Unit :: v != Weeks ==> Get(o1, Part(v)) == Get(o2, Part(v))
    ensures Slots(d, o1) == Slots(d, o2)
  {
    forall u: Unit | u != Weeks ensures SlotValue(d, o1, u) == SlotValue(d, o2, u) {
      ResetAboveAgree(o1, o2, u);
    }
    forall i | 0 <= i < 6 ensures Slots(d, o1)[i] == Slots(d, o2)[i] {
      assert SlotUnits()[i] != Weeks;
    }
  }

  /** Appending a key that is not invalid leaves the first invalid key alone. */
  lemma {:induction false} FirstInvalidKeyAppend(o: RawParts, e: (Key, Option<real>))
    requires !e.0.Other?
    ensures FirstInvalidKey(o + [e]) == FirstInvalidKey(o)
  {
    if o == [] {
      assert [] + [e] == [e];
      assert [e][1..] == [];
    } else {
      assert (o + [e])[1..] == o[1..] + [e];
      FirstInvalidKeyAppend(o[1..], e);
    }
  }

  /** Appending an entry keyed k' changes nothing a lookup of another key k sees. */
  lemma AppendOtherKey(o: RawParts, e: (Key, Option<real>), k: Key)
    requires e.0 != k
    ensures HasKey(o + [e], k) == HasKey(o, k)
    ensures Get(o + [e], k) == Get(o, k)
  {
    GetAppend(o, [e], k);
    assert !HasKey([e][1..], k);
    if !HasKey(o, k) {
      GetAbsent(o, k);
    }
  }

  /** A `weeks:` option is ignored. */
  lemma WeeksIgnored(d: Duration, o: RawParts, x: Option<real>)
    ensures Cascaded(d, o + [(Part(Weeks), x)]) == Cascaded(d, o)
  {
    var e := (Part(Weeks), x);
    FirstInvalidKeyAppend(o, e);
    AppendOtherKey(o, e, Nsec);
    AppendOtherKey(o, e, Usec);
    forall v: Unit | v != Weeks ensures HasKey(o + [e], Part(v)) == HasKey(o, Part(v)) && Get(o + [e], Part(v)) == Get(o, Part(v)) {
      AppendOtherKey(o, e, Part(v));
    }
    CascadeCongruence(d, o + [e], o);
  }

  /** A `usec:` option without `nsec:` is ignored. */
  lemma UsecAloneIgnored(d: Duration, o: RawParts, x: Option<real>)
    requires Get(o, Nsec).None?
    ensures Cascaded(d, o + [(Usec, x)]) == Cascaded(d, o)
  {
    var e := (Usec, x);
    FirstInvalidKeyAppend(o, e);
    AppendOtherKey(o, e, Nsec);
    forall v: Unit ensures HasKey(o + [e], Part(v)) == HasKey(o, Part(v)) && Get(o + [e], Part(v)) == Get(o, Part(v)) {
      AppendOtherKey(o, e, Part(v));
    }
    CascadeCongruence(d, o + [e], o);
  }
}
