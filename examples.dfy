/**
 * The behaviour spec/active_support/duration/truncate_spec.rb pins down for from_parts,
 * normalize, change, change_cascade and smaller_parts, on the model. Durations are
 * written as Duration(seconds, parts), each the duration the Ruby test builds.
 */
module Examples {
  import opened Wrappers
  import opened Units
  import opened PartsAlgebra
  import opened Decomposition
  import opened Durations
  import opened Cascade
  import opened Precision

  /** {hours: 9, minutes: 10, seconds: 40}, as 9.hours + 10.minutes + 40.seconds. */
  function NineTenForty(): Duration {
    Duration(33040.0, [(Hours, 9.0), (Minutes, 10.0), (Seconds, 40.0)])
  }

  /** {hours: 1, minutes: 29, seconds: 60}, built without normalizing. */
  function OverfullMinute(): Duration {
    Duration(5400.0, [(Hours, 1.0), (Minutes, 29.0), (Seconds, 60.0)])
  }

  /** Duration.build(1830.5): {minutes: 30, seconds: 30.5}. */
  function Built1830(): Duration {
    Duration(1830.5, [(Minutes, 30.0), (Seconds, 30.5)])
  }

  /** One slot's entry: kept when change_cascade leaves a value there. */
  function Keep(v: Unit, q: Option<real>): (p: Parts)
    ensures q.Some? ==> p == [(v, q.value)]
    ensures q.None? ==> p == []
  {
    if q.Some? then [(v, q.value)] else []
  }

  /** The six slots of a one-unit change_cascade, one after the other. */
  lemma RetainedSlots(d: Duration, u: Unit, x: real)
    ensures Retained(d, u, x, SlotUnits())
         == Keep(Years, SingleSlot(d, u, x, Years)) + (Keep(Months, SingleSlot(d, u, x, Months))
          + (Keep(Days, SingleSlot(d, u, x, Days)) + (Keep(Hours, SingleSlot(d, u, x, Hours))
          + (Keep(Minutes, SingleSlot(d, u, x, Minutes)) + Keep(Seconds, SingleSlot(d, u, x, Seconds))))))
  {
    var us := SlotUnits();
    assert us == [Years, Months, Days, Hours, Minutes, Seconds];
    RetainedStep(d, u, x, us[5..]);
    assert us[5..][1..] == [];
    assert Retained(d, u, x, us[5..]) == Keep(Seconds, SingleSlot(d, u, x, Seconds));
    RetainedStep(d, u, x, us[4..]);
    assert us[4..][1..] == us[5..];
    RetainedStep(d, u, x, us[3..]);
    assert us[3..][1..] == us[4..];
    RetainedStep(d, u, x, us[2..]);
    assert us[2..][1..] == us[3..];
    RetainedStep(d, u, x, us[1..]);
    assert us[1..][1..] == us[2..];
    RetainedStep(d, u, x, us);
  }

  lemma RetainedStep(d: Duration, u: Unit, x: real, us: seq<Unit>)
    requires us != []
    ensures Retained(d, u, x, us) == Keep(us[0], SingleSlot(d, u, x, us[0])) + Retained(d, u, x, us[1..])
  {
  }

  /** change_cascade to one unit, spelt out slot by slot. */
  lemma CascadeSlots(d: Duration, u: Unit, x: real)
    requires u != Weeks
    ensures Cascaded(d, [(Part(u), Some(x))]).Success?
    ensures Cascaded(d, [(Part(u), Some(x))]).value.parts
         == Keep(Years, SingleSlot(d, u, x, Years)) + (Keep(Months, SingleSlot(d, u, x, Months))
          + (Keep(Days, SingleSlot(d, u, x, Days)) + (Keep(Hours, SingleSlot(d, u, x, Hours))
          + (Keep(Minutes, SingleSlot(d, u, x, Minutes)) + Keep(Seconds, SingleSlot(d, u, x, Seconds))))))
  {
    SingleCascadeParts(d, u, x);
    RetainedSlots(d, u, x);
  }

  /** A non-negative duration normalizes to the canonical parts with its total. */
  lemma NormalizesTo(d: Duration, p: Parts)
    requires d.value >= 0.0 && Canonical(p) && Total(p) == d.value
    ensures Normalize(d).parts == p
  {
    BuildCharacterized(d.value, p);
  }

  /** Seconds alone, under a minute, are a normal form. */
  lemma CanonicalSeconds(q: real)
    requires 0.0 < q < 60.0
    ensures Canonical([(Seconds, q)])
  {
    var p := [(Seconds, q)];
    assert p[0..] == p;
    assert CanonicalAt(p, 0);
  }

  /** The total of one, two or three parts, written out. */
  lemma TotalOfOne(a: (Unit, real))
    ensures Total([a]) == InSeconds(a.1, a.0)
  {
    TotalCons(a.0, a.1, []);
    assert [(a.0, a.1)] + [] == [a];
  }

  lemma TotalOfTwo(a: (Unit, real), b: (Unit, real))
    ensures Total([a, b]) == InSeconds(a.1, a.0) + InSeconds(b.1, b.0)
  {
    TotalOfOne(b);
    TotalCons(a.0, a.1, [b]);
    assert [(a.0, a.1)] + [b] == [a, b];
  }

  lemma TotalOfThree(a: (Unit, real), b: (Unit, real), c: (Unit, real))
    ensures Total([a, b, c]) == InSeconds(a.1, a.0) + InSeconds(b.1, b.0) + InSeconds(c.1, c.0)
  {
    TotalOfTwo(b, c);
    TotalCons(a.0, a.1, [b, c]);
    assert [(a.0, a.1)] + [b, c] == [a, b, c];
  }

  /** change of one unit a duration has: that entry takes the new value, in place. */
  lemma ChangeOneInPlace(d: Duration, u: Unit, x: real, p: Parts)
    requires forall i | 0 <= i < |d.parts| :: d.parts[i].1 != 0.0
    requires Lookup(d.parts, u).Some? && x != 0.0
    requires |p| == |d.parts|
    requires forall i | 0 <= i < |p| :: p[i] == (d.parts[i].0, if d.parts[i].0 == u then x else d.parts[i].1)
    ensures Change(d, [(Part(u), Some(x))]) == Success(Duration(Total(p), p))
  {
    var c := [(Part(u), Some(x))];
    ChangeInPlace(d, c);
    var q := Change(d, c).value.parts;
    assert c[1..] == [];
    forall i | 0 <= i < |p| ensures q[i] == p[i] {
      var w := d.parts[i].0;
      assert HasKey(c, Part(w)) <==> w == u;
      assert ChangedValue(d.parts[i], c) == if w == u then x else d.parts[i].1;
    }
    assert q == p;
  }

  // from_parts

  /** from_parts({minutes: 30.5, seconds: 30.5}, normalize: false) keeps the parts. */
  lemma FromPartsAsGiven()
    ensures FromParts([(Part(Minutes), Some(30.5)), (Part(Seconds), Some(30.5))], false)
         == Success(Duration(1860.5, [(Minutes, 30.5), (Seconds, 30.5)]))
  {
    FromPartsVerbatim([(Part(Minutes), Some(30.5)), (Part(Seconds), Some(30.5))], [(Minutes, 30.5), (Seconds, 30.5)]);
  }

  /** from_parts({minutes: 30.5, seconds: 30.5}) normalizes to {minutes: 31, seconds: 0.5}. */
  lemma FromPartsNormalized()
    ensures FromParts([(Part(Minutes), Some(30.5)), (Part(Seconds), Some(30.5))], true)
         == Success(Duration(1860.5, [(Minutes, 31.0), (Seconds, 0.5)]))
  {
    var p: Parts := [(Minutes, 31.0), (Seconds, 0.5)];
    TotalOfTwo((Minutes, 31.0), (Seconds, 0.5));
    assert Total(p) == 1860.5;
    CanonicalSeconds(0.5);
    assert IsWhole(31.0);
    ConsCanonical(5, 31, [(Seconds, 0.5)], p);
    FromPartsAsGiven();
    FromPartsNormalizes([(Part(Minutes), Some(30.5)), (Part(Seconds), Some(30.5))]);
    NormalizesTo(Duration(1860.5, [(Minutes, 30.5), (Seconds, 30.5)]), p);
  }

  /** from_parts({hours: 1, minutes: 29, seconds: 60}, normalize: false) keeps the overfull minute. */
  lemma FromPartsOverfull()
    ensures FromParts([(Part(Hours), Some(1.0)), (Part(Minutes), Some(29.0)), (Part(Seconds), Some(60.0))], false)
         == Success(OverfullMinute())
  {
    FromPartsVerbatim([(Part(Hours), Some(1.0)), (Part(Minutes), Some(29.0)), (Part(Seconds), Some(60.0))],
                      OverfullMinute().parts);
  }

  /** A key that is not a unit, with a value, is refused. */
  lemma FromPartsRefusesOtherKey()
    ensures FromParts([(Part(Minutes), Some(1.0)), (Other("fortnights"), Some(2.0))], false).Failure?
  {
    var raw: RawParts := [(Part(Minutes), Some(1.0)), (Other("fortnights"), Some(2.0))];
    assert raw[1].1.Some? && raw[1].1.value != 0.0 && !raw[1].0.Part?;
  }

  // normalize

  /** {seconds: 61}.normalize is {minutes: 1, seconds: 1}. */
  lemma NormalizeSixtyOneSeconds()
    ensures Normalize(Duration(61.0, [(Seconds, 61.0)])).parts == [(Minutes, 1.0), (Seconds, 1.0)]
  {
    var p: Parts := [(Minutes, 1.0), (Seconds, 1.0)];
    CanonicalSeconds(1.0);
    assert IsWhole(1.0);
    ConsCanonical(5, 1, [(Seconds, 1.0)], p);
    NormalizesTo(Duration(61.0, [(Seconds, 61.0)]), p);
  }

  /** {seconds: 1830.5}.normalize is {minutes: 30, seconds: 30.5}. */
  lemma NormalizeSeconds1830()
    ensures Normalize(Duration(1830.5, [(Seconds, 1830.5)])).parts == Built1830().parts
  {
    CanonicalSeconds(30.5);
    assert IsWhole(30.0);
    ConsCanonical(5, 30, [(Seconds, 30.5)], Built1830().parts);
    NormalizesTo(Duration(1830.5, [(Seconds, 1830.5)]), Built1830().parts);
  }

  /** {minutes: 1.4, seconds: 25}.normalize is {minutes: 1, seconds: 49}. */
  lemma NormalizeFractionalMinutes()
    ensures Normalize(Duration(109.0, [(Minutes, 1.4), (Seconds, 25.0)])).parts == [(Minutes, 1.0), (Seconds, 49.0)]
  {
    var p: Parts := [(Minutes, 1.0), (Seconds, 49.0)];
    CanonicalSeconds(49.0);
    assert IsWhole(1.0);
    ConsCanonical(5, 1, [(Seconds, 49.0)], p);
    NormalizesTo(Duration(109.0, [(Minutes, 1.4), (Seconds, 25.0)]), p);
  }

  /** {hours: 1, minutes: 29, seconds: 60}.normalize is {hours: 1, minutes: 30}. */
  lemma NormalizeOverfullMinute()
    ensures Normalize(OverfullMinute()).parts == [(Hours, 1.0), (Minutes, 30.0)]
  {
    var g: Parts := [(Minutes, 30.0)];
    var p: Parts := [(Hours, 1.0), (Minutes, 30.0)];
    assert IsWhole(30.0) && IsWhole(1.0);
    ConsCanonical(5, 30, [], g);
    ConsCanonical(4, 1, g, p);
    NormalizesTo(OverfullMinute(), p);
  }

  /** {hours: 1, minutes: 89}.normalize is {hours: 2, minutes: 29}. */
  lemma NormalizeEightyNineMinutes()
    ensures Normalize(Duration(8940.0, [(Hours, 1.0), (Minutes, 89.0)])).parts == [(Hours, 2.0), (Minutes, 29.0)]
  {
    var g: Parts := [(Minutes, 29.0)];
    var p: Parts := [(Hours, 2.0), (Minutes, 29.0)];
    assert IsWhole(29.0) && IsWhole(2.0);
    ConsCanonical(5, 29, [], g);
    ConsCanonical(4, 2, g, p);
    NormalizesTo(Duration(8940.0, [(Hours, 1.0), (Minutes, 89.0)]), p);
  }

  /** {hours: 1, minutes: 90}.normalize is {hours: 2, minutes: 30}. */
  lemma NormalizeNinetyMinutes()
    ensures Normalize(Duration(9000.0, [(Hours, 1.0), (Minutes, 90.0)])).parts == [(Hours, 2.0), (Minutes, 30.0)]
  {
    var g: Parts := [(Minutes, 30.0)];
    var p: Parts := [(Hours, 2.0), (Minutes, 30.0)];
    assert IsWhole(30.0) && IsWhole(2.0);
    ConsCanonical(5, 30, [], g);
    ConsCanonical(4, 2, g, p);
    NormalizesTo(Duration(9000.0, [(Hours, 1.0), (Minutes, 90.0)]), p);
  }

  // change

  /** (9h 10m 40s).change(hours: 12) is 12h 10m 40s. */
  lemma ChangeHours()
    ensures Change(NineTenForty(), [(Part(Hours), Some(12.0))])
         == Success(Duration(43840.0, [(Hours, 12.0), (Minutes, 10.0), (Seconds, 40.0)]))
  {
    var p: Parts := [(Hours, 12.0), (Minutes, 10.0), (Seconds, 40.0)];
    TotalOfThree((Hours, 12.0), (Minutes, 10.0), (Seconds, 40.0));
    assert Total(p) == 43840.0;
    ChangeOneInPlace(NineTenForty(), Hours, 12.0, p);
  }

  /** Duration.build(1830.5).change(minutes: 1) is {minutes: 1, seconds: 30.5}. */
  lemma ChangeMinutes()
    ensures Change(Built1830(), [(Part(Minutes), Some(1.0))]) == Success(Duration(90.5, [(Minutes, 1.0), (Seconds, 30.5)]))
  {
    var p: Parts := [(Minutes, 1.0), (Seconds, 30.5)];
    TotalOfTwo((Minutes, 1.0), (Seconds, 30.5));
    assert Total(p) == 90.5;
    ChangeOneInPlace(Built1830(), Minutes, 1.0, p);
  }

  /** (1h 29m 60s).change(hours: 1) changes nothing. */
  lemma ChangeToSameValue()
    ensures Change(OverfullMinute(), [(Part(Hours), Some(1.0))]) == Success(OverfullMinute())
  {
    var p: Parts := [(Hours, 1.0), (Minutes, 29.0), (Seconds, 60.0)];
    TotalOfThree((Hours, 1.0), (Minutes, 29.0), (Seconds, 60.0));
    assert Total(p) == 5400.0;
    assert p == OverfullMinute().parts;
    ChangeOneInPlace(OverfullMinute(), Hours, 1.0, p);
  }

  /** A unit the duration lacks is appended after the others, as a hash merge does. */
  lemma ChangeAddsUnitAtEnd()
    ensures Change(NineTenForty(), [(Part(Days), Some(2.0))]).value.parts
         == [(Hours, 9.0), (Minutes, 10.0), (Seconds, 40.0), (Days, 2.0)]
  {
    ChangeAppends(NineTenForty(), Days, 2.0);
  }

  // change_cascade

  lemma NineTenFortyLookups()
    ensures Lookup(NineTenForty().parts, Years).None? && Lookup(NineTenForty().parts, Months).None?
    ensures Lookup(NineTenForty().parts, Days).None? && Lookup(NineTenForty().parts, Hours) == Some(9.0)
    ensures Lookup(NineTenForty().parts, Minutes) == Some(10.0) && Lookup(NineTenForty().parts, Seconds) == Some(40.0)
  {
    var p := NineTenForty().parts;
    assert p[1..][1..][1..] == [];
  }

  lemma Built1830Lookups()
    ensures Lookup(Built1830().parts, Years).None? && Lookup(Built1830().parts, Months).None?
    ensures Lookup(Built1830().parts, Days).None? && Lookup(Built1830().parts, Hours).None?
    ensures Lookup(Built1830().parts, Minutes) == Some(30.0) && Lookup(Built1830().parts, Seconds) == Some(30.5)
  {
    var p := Built1830().parts;
    assert p[1..][1..] == [];
  }

  lemma OverfullMinuteLookups()
    ensures Lookup(OverfullMinute().parts, Years).None? && Lookup(OverfullMinute().parts, Months).None?
    ensures Lookup(OverfullMinute().parts, Days).None? && Lookup(OverfullMinute().parts, Hours) == Some(1.0)
    ensures Lookup(OverfullMinute().parts, Minutes) == Some(29.0) && Lookup(OverfullMinute().parts, Seconds) == Some(60.0)
  {
    var p := OverfullMinute().parts;
    assert p[1..][1..][1..] == [];
  }

  /** (9h 10m 40s).change_cascade(hours: 12) is {hours: 12}. */
  lemma CascadeHours()
    ensures Cascaded(NineTenForty(), [(Part(Hours), Some(12.0))]).value.parts == [(Hours, 12.0)]
  {
    var d := NineTenForty();
    NineTenFortyLookups();
    assert SingleSlot(d, Hours, 12.0, Years) == None;
    assert SingleSlot(d, Hours, 12.0, Months) == None;
    assert SingleSlot(d, Hours, 12.0, Days) == None;
    assert SingleSlot(d, Hours, 12.0, Hours) == Some(12.0);
    assert SingleSlot(d, Hours, 12.0, Minutes) == None;
    assert SingleSlot(d, Hours, 12.0, Seconds) == None;
    CascadeSlots(d, Hours, 12.0);
  }

  /** (9h 10m 40s).change_cascade(minutes: 5) is {hours: 9, minutes: 5}. */
  lemma CascadeMinutes()
    ensures Cascaded(NineTenForty(), [(Part(Minutes), Some(5.0))]).value.parts == [(Hours, 9.0), (Minutes, 5.0)]
  {
    var d := NineTenForty();
    NineTenFortyLookups();
    assert SingleSlot(d, Minutes, 5.0, Years) == None;
    assert SingleSlot(d, Minutes, 5.0, Months) == None;
    assert SingleSlot(d, Minutes, 5.0, Days) == None;
    assert SingleSlot(d, Minutes, 5.0, Hours) == Some(9.0);
    assert SingleSlot(d, Minutes, 5.0, Minutes) == Some(5.0);
    assert SingleSlot(d, Minutes, 5.0, Seconds) == None;
    CascadeSlots(d, Minutes, 5.0);
  }

  /** Duration.build(1830.5).change_cascade(minutes: 1) is {minutes: 1}. */
  lemma CascadeBuiltMinutes()
    ensures Cascaded(Built1830(), [(Part(Minutes), Some(1.0))]).value.parts == [(Minutes, 1.0)]
  {
    var d := Built1830();
    Built1830Lookups();
    assert SingleSlot(d, Minutes, 1.0, Years) == None;
    assert SingleSlot(d, Minutes, 1.0, Months) == None;
    assert SingleSlot(d, Minutes, 1.0, Days) == None;
    assert SingleSlot(d, Minutes, 1.0, Hours) == None;
    assert SingleSlot(d, Minutes, 1.0, Minutes) == Some(1.0);
    assert SingleSlot(d, Minutes, 1.0, Seconds) == None;
    CascadeSlots(d, Minutes, 1.0);
  }

  /** (1h 29m 60s).change_cascade(hours: 1) is {hours: 1}. */
  lemma CascadeOverfullHours()
    ensures Cascaded(OverfullMinute(), [(Part(Hours), Some(1.0))]).value.parts == [(Hours, 1.0)]
  {
    var d := OverfullMinute();
    OverfullMinuteLookups();
    assert SingleSlot(d, Hours, 1.0, Years) == None;
    assert SingleSlot(d, Hours, 1.0, Months) == None;
    assert SingleSlot(d, Hours, 1.0, Days) == None;
    assert SingleSlot(d, Hours, 1.0, Hours) == Some(1.0);
    assert SingleSlot(d, Hours, 1.0, Minutes) == None;
    assert SingleSlot(d, Hours, 1.0, Seconds) == None;
    CascadeSlots(d, Hours, 1.0);
  }

  /** A key that is not a unit is refused before anything else. */
  lemma CascadeRefusesOtherKey()
    ensures Cascaded(NineTenForty(), [(Other("hour"), Some(1.0))]) == Failure(InvalidKey(Other("hour")))
  {
    var o: RawParts := [(Other("hour"), Some(1.0))];
    assert o[0].0.Other?;
    assert FirstInvalidKey(o) == Some(Other("hour"));
  }

  /** nsec and usec together are refused. */
  lemma CascadeRefusesNsecWithUsec()
    ensures Cascaded(NineTenForty(), [(Nsec, Some(5.0)), (Usec, Some(1.0))]) == Failure(NsecAndUsec)
  {
    var o: RawParts := [(Nsec, Some(5.0)), (Usec, Some(1.0))];
    assert FirstInvalidKey(o) == None;
    assert Get(o, Nsec) == Some(5.0) && Get(o, Usec) == Some(1.0);
  }

  /** A whole second or more of nanoseconds is out of range. */
  lemma CascadeRefusesFullSecondOfNsec()
    ensures Cascaded(NineTenForty(), [(Nsec, Some(1000000000.0))]) == Failure(OutOfRange)
  {
    var o: RawParts := [(Nsec, Some(1000000000.0))];
    assert FirstInvalidKey(o) == None;
    assert Get(o, Nsec) == Some(1000000000.0) && Get(o, Usec) == None;
  }

  /** Nanoseconds on a duration with no seconds part meet a nil seconds value. */
  lemma CascadeNsecWithoutSeconds()
    ensures Cascaded(Duration(32400.0, [(Hours, 9.0)]), [(Nsec, Some(5.0))]) == Failure(NilSeconds)
  {
    var d := Duration(32400.0, [(Hours, 9.0)]);
    var o: RawParts := [(Nsec, Some(5.0))];
    assert FirstInvalidKey(o) == None;
    assert Get(o, Nsec) == Some(5.0) && Get(o, Usec) == None;
    assert forall v: Unit :: !HasKey(o, Part(v));
    assert Lookup(d.parts, Seconds) == None;
    assert SlotValue(d, o, Seconds) == None;
  }

  // smaller_parts

  /** (1h 29m 60s).smaller_parts(:hours) is {minutes: 29, seconds: 60}. */
  lemma SmallerThanHours()
    ensures SmallerParts(OverfullMinute(), Part(Hours)) == Success([(Minutes, 29.0), (Seconds, 60.0)])
  {
    var p := OverfullMinute().parts;
    SmallerPartsAt(OverfullMinute(), Hours, 1);
    assert p[1..] == [(Minutes, 29.0), (Seconds, 60.0)];
  }

  /** (1h 29m 60s).smaller_parts(:minutes) is {seconds: 60}. */
  lemma SmallerThanMinutes()
    ensures SmallerParts(OverfullMinute(), Part(Minutes)) == Success([(Seconds, 60.0)])
  {
    var p := OverfullMinute().parts;
    SmallerPartsAt(OverfullMinute(), Minutes, 2);
    assert p[2..] == [(Seconds, 60.0)];
  }

  /** (1h 29m 60s).smaller_parts(:seconds) is empty. */
  lemma SmallerThanSeconds()
    ensures SmallerParts(OverfullMinute(), Part(Seconds)) == Success([])
  {
    var p := OverfullMinute().parts;
    SmallerPartsAt(OverfullMinute(), Seconds, 3);
    assert p[3..] == [];
  }

  /** The 29m 60s under the hour are half an hour. */
  lemma FractionOfHour()
    ensures SmallerPartsToFractionOf(OverfullMinute(), Part(Hours)) == Success(0.5)
  {
    assert InUnits(1800.0, Hours) == 0.5;
    TotalOfTwo((Minutes, 29.0), (Seconds, 60.0));
    assert Total([(Minutes, 29.0), (Seconds, 60.0)]) == 1800.0;
    SmallerThanHours();
    FractionValue(OverfullMinute(), Hours);
  }
}
