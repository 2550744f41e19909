/**
 * The behaviour spec/active_support/duration/truncate_spec.rb pins down for round and
 * truncate, on the model. Each example is built from three facts: the whole quantity
 * the precision unit takes, the change_cascade to it, and their composition.
 */
module RoundingExamples {
  import opened Wrappers
  import opened Units
  import opened PartsAlgebra
  import opened Durations
  import opened Cascade
  import opened Precision
  import opened Examples

  /** change_cascade to one unit, from what it leaves in each of the six slots. */
  lemma CascadeIs(d: Duration, u: Unit, x: real, y: Option<real>, mo: Option<real>, dy: Option<real>,
                  h: Option<real>, mi: Option<real>, s: Option<real>, p: Parts)
    requires u != Weeks
    requires SingleSlot(d, u, x, Years) == y && SingleSlot(d, u, x, Months) == mo && SingleSlot(d, u, x, Days) == dy
    requires SingleSlot(d, u, x, Hours) == h && SingleSlot(d, u, x, Minutes) == mi && SingleSlot(d, u, x, Seconds) == s
    requires Keep(Years, y) + (Keep(Months, mo) + (Keep(Days, dy) + (Keep(Hours, h) + (Keep(Minutes, mi) + Keep(Seconds, s))))) == p
    ensures Cascaded(d, [(Part(u), Some(x))]).Success?
    ensures Cascaded(d, [(Part(u), Some(x))]).value.parts == p
  {
    CascadeSlots(d, u, x);
  }

  /** The fraction of u below it, from the smaller parts and their total. */
  lemma FractionIs(d: Duration, u: Unit, s: Parts, t: real)
    requires SmallerParts(d, Part(u)).value == s && Total(s) == t
    ensures SmallerPartsToFractionOf(d, Part(u)) == Success(InUnits(t, u))
  {
  }

  /** The whole quantity round gives u, from its part, the fraction below it and the rounding. */
  lemma RoundedValueIs(d: Duration, u: Unit, mode: HalfMode, part: real, fraction: real, n: int)
    requires PartValue(d, Part(u)) == part && SmallerPartsToFractionOf(d, Part(u)) == Success(fraction)
    requires RoundHalf(part + fraction, mode) == n
    ensures RoundedValue(d, Part(u), mode) == n
  {
  }

  /** round to u is the change_cascade of u to the rounded quantity. */
  lemma RoundedIs(d: Duration, u: Unit, mode: HalfMode, n: int, p: Parts)
    requires RoundedValue(d, Part(u), mode) == n
    requires Cascaded(d, [(Part(u), Some(n as real))]).Success? && Cascaded(d, [(Part(u), Some(n as real))]).value.parts == p
    ensures Rounded(d, Some(Part(u)), mode) == Success(Duration(Total(p), p))
  {
  }

  /** round without a precision rounds to the unit of the last part. */
  lemma RoundedByDefault(d: Duration, mode: HalfMode)
    requires |d.parts| > 0
    ensures Rounded(d, None, mode) == Rounded(d, Some(Part(d.parts[|d.parts| - 1].0)), mode)
  {
  }

  /** truncate without a precision truncates to the unit of the last part. */
  lemma TruncatedByDefault(d: Duration)
    requires |d.parts| > 0
    ensures Truncate(d, None) == Truncate(d, Some(Part(d.parts[|d.parts| - 1].0)))
  {
  }

  /** Duration.seconds(2.5) */
  function TwoAndAHalfSeconds(): Duration {
    Duration(2.5, [(Seconds, 2.5)])
  }

  /** {minutes: 1, seconds: 29}, built without normalizing. */
  function MinuteAnd29(): Duration {
    Duration(89.0, [(Minutes, 1.0), (Seconds, 29.0)])
  }

  /** {hours: 1, minutes: 29}, built without normalizing. */
  function HourAnd29(): Duration {
    Duration(5340.0, [(Hours, 1.0), (Minutes, 29.0)])
  }

  /** {hours: 1, minutes: 89}, built without normalizing. */
  function HourAnd89(): Duration {
    Duration(8940.0, [(Hours, 1.0), (Minutes, 89.0)])
  }

  /** {hours: 2, minutes: 29}, the normal form of 1h 89m. */
  function TwoHoursAnd29(): Duration {
    Duration(8940.0, [(Hours, 2.0), (Minutes, 29.0)])
  }

  /** {hours: 1, minutes: 90}, built without normalizing. */
  function HourAnd90(): Duration {
    Duration(9000.0, [(Hours, 1.0), (Minutes, 90.0)])
  }

  /** {hours: 2, minutes: 30}, the normal form of 1h 90m. */
  function TwoHoursAnd30(): Duration {
    Duration(9000.0, [(Hours, 2.0), (Minutes, 30.0)])
  }

  /** Duration.seconds(30) */
  function ThirtySeconds(): Duration {
    Duration(30.0, [(Seconds, 30.0)])
  }

  /** Duration.seconds(89) */
  function EightyNineSeconds(): Duration {
    Duration(89.0, [(Seconds, 89.0)])
  }

  /** Duration.seconds(90) */
  function NinetySeconds(): Duration {
    Duration(90.0, [(Seconds, 90.0)])
  }

  /** {minutes: 1, seconds: 30}, built without normalizing; also the normal form of 90 seconds. */
  function MinuteAnd30(): Duration {
    Duration(90.0, [(Minutes, 1.0), (Seconds, 30.0)])
  }

  /** {hours: 1, minutes: 29.5}, built without normalizing. */
  function HourAndHalfMinutes(): Duration {
    Duration(5370.0, [(Hours, 1.0), (Minutes, 29.5)])
  }

  /** {minutes: 1.4, seconds: 25}, built without normalizing. */
  function FractionalMinutes(): Duration {
    Duration(109.0, [(Minutes, 1.4), (Seconds, 25.0)])
  }

  /** {hours: 1, minutes: 30}, the normal form of 1h 29m 60s. */
  function HourAnd30(): Duration {
    Duration(5400.0, [(Hours, 1.0), (Minutes, 30.0)])
  }

  /** {days: 1, hours: 1, minutes: 30}, built without normalizing. */
  function DayHourAnd30(): Duration {
    Duration(91800.0, [(Days, 1.0), (Hours, 1.0), (Minutes, 30.0)])
  }

  /** {minutes: 1, seconds: 29.9}, built without normalizing. */
  function MinuteAnd29Point9(): Duration {
    Duration(89.9, [(Minutes, 1.0), (Seconds, 29.9)])
  }

  /** Duration.seconds(1830.5) */
  function Seconds1830(): Duration {
    Duration(1830.5, [(Seconds, 1830.5)])
  }

  /** change_cascade(seconds: 2) on TwoAndAHalfSeconds. */
  lemma CascadeTwoAndAHalfSecondsToSeconds2()
    ensures Cascaded(TwoAndAHalfSeconds(), [(Part(Seconds), Some(2.0))]).value.parts == [(Seconds, 2.0)]
  {
    var d := TwoAndAHalfSeconds();
    assert Lookup(d.parts, Hours) == None;
    assert Lookup(d.parts, Days) == None;
    assert Lookup(d.parts, Months) == None;
    assert Lookup(d.parts, Years) == None;
    assert SingleSlot(d, Seconds, 2.0, Years) == None;
    assert SingleSlot(d, Seconds, 2.0, Months) == None;
    assert SingleSlot(d, Seconds, 2.0, Days) == None;
    assert SingleSlot(d, Seconds, 2.0, Hours) == None;
    assert SingleSlot(d, Seconds, 2.0, Minutes) == None;
    assert SingleSlot(d, Seconds, 2.0, Seconds) == Some(2.0);
    CascadeIs(d, Seconds, 2.0, None, None, None, None, None, Some(2.0), [(Seconds, 2.0)]);
  }

  /** 2.5 seconds truncated to seconds: {seconds: 2}. */
  lemma TruncateTwoAndAHalfSecondsToSeconds()
    ensures Truncate(TwoAndAHalfSeconds(), Some(Part(Seconds))).value.parts == [(Seconds, 2.0)]
  {
    assert PartValue(TwoAndAHalfSeconds(), Part(Seconds)) == 2.5;
    assert TruncateTowardZero(2.5) == 2;
    CascadeTwoAndAHalfSecondsToSeconds2();
  }

  /** smaller_parts(seconds) of TwoAndAHalfSeconds. */
  lemma SmallerTwoAndAHalfSecondsThanSeconds()
    ensures SmallerParts(TwoAndAHalfSeconds(), Part(Seconds)) == Success([])
  {
    var d := TwoAndAHalfSeconds();
    SmallerPartsAt(d, Seconds, 1);
    assert d.parts[1..] == [];
  }

  /** change_cascade(seconds: 3) on TwoAndAHalfSeconds. */
  lemma CascadeTwoAndAHalfSecondsToSeconds3()
    ensures Cascaded(TwoAndAHalfSeconds(), [(Part(Seconds), Some(3.0))]).value.parts == [(Seconds, 3.0)]
  {
    var d := TwoAndAHalfSeconds();
    assert Lookup(d.parts, Hours) == None;
    assert Lookup(d.parts, Days) == None;
    assert Lookup(d.parts, Months) == None;
    assert Lookup(d.parts, Years) == None;
    assert SingleSlot(d, Seconds, 3.0, Years) == None;
    assert SingleSlot(d, Seconds, 3.0, Months) == None;
    assert SingleSlot(d, Seconds, 3.0, Days) == None;
    assert SingleSlot(d, Seconds, 3.0, Hours) == None;
    assert SingleSlot(d, Seconds, 3.0, Minutes) == None;
    assert SingleSlot(d, Seconds, 3.0, Seconds) == Some(3.0);
    CascadeIs(d, Seconds, 3.0, None, None, None, None, None, Some(3.0), [(Seconds, 3.0)]);
  }

  /** smaller_parts_to_fraction_of(seconds) on TwoAndAHalfSeconds. */
  lemma FractionTwoAndAHalfSecondsOfSeconds()
    ensures SmallerPartsToFractionOf(TwoAndAHalfSeconds(), Part(Seconds)) == Success(0.0 / 1.0)
  {
    assert InUnits(0.0, Seconds) == 0.0 / 1.0;
    assert Total([]) == 0.0;
    SmallerTwoAndAHalfSecondsThanSeconds();
    FractionIs(TwoAndAHalfSeconds(), Seconds, [], 0.0);
  }

  /** The whole quantity round gives seconds on TwoAndAHalfSeconds: 3. */
  lemma RoundTwoAndAHalfSecondsToSecondsValue()
    ensures RoundedValue(TwoAndAHalfSeconds(), Part(Seconds), HalfUp) == 3
  {
    RoundHalfTie(2.5, 2);
    assert PartValue(TwoAndAHalfSeconds(), Part(Seconds)) == 2.5;
    FractionTwoAndAHalfSecondsOfSeconds();
    RoundedValueIs(TwoAndAHalfSeconds(), Seconds, HalfUp, 2.5, 0.0 / 1.0, 3);
  }

  /** 2.5 seconds rounded to seconds: {seconds: 3}. */
  lemma RoundTwoAndAHalfSecondsToSeconds()
    ensures Rounded(TwoAndAHalfSeconds(), Some(Part(Seconds)), HalfUp).value.parts == [(Seconds, 3.0)]
  {
    RoundTwoAndAHalfSecondsToSecondsValue();
    CascadeTwoAndAHalfSecondsToSeconds3();
    RoundedIs(TwoAndAHalfSeconds(), Seconds, HalfUp, 3, [(Seconds, 3.0)]);
  }

  /** change_cascade(minutes: 1) on MinuteAnd29. */
  lemma CascadeMinuteAnd29ToMinutes1()
    ensures Cascaded(MinuteAnd29(), [(Part(Minutes), Some(1.0))]).value.parts == [(Minutes, 1.0)]
  {
    var d := MinuteAnd29();
    assert Lookup(d.parts, Hours) == None;
    assert Lookup(d.parts, Days) == None;
    assert Lookup(d.parts, Months) == None;
    assert Lookup(d.parts, Years) == None;
    assert SingleSlot(d, Minutes, 1.0, Years) == None;
    assert SingleSlot(d, Minutes, 1.0, Months) == None;
    assert SingleSlot(d, Minutes, 1.0, Days) == None;
    assert SingleSlot(d, Minutes, 1.0, Hours) == None;
    assert SingleSlot(d, Minutes, 1.0, Minutes) == Some(1.0);
    assert SingleSlot(d, Minutes, 1.0, Seconds) == None;
    CascadeIs(d, Minutes, 1.0, None, None, None, None, Some(1.0), None, [(Minutes, 1.0)]);
  }

  /** 1m 29s truncated to minutes: {minutes: 1}. */
  lemma TruncateMinuteAnd29ToMinutes()
    ensures Truncate(MinuteAnd29(), Some(Part(Minutes))).value.parts == [(Minutes, 1.0)]
  {
    assert PartValue(MinuteAnd29(), Part(Minutes)) == 1.0;
    assert TruncateTowardZero(1.0) == 1;
    CascadeMinuteAnd29ToMinutes1();
  }

  /** smaller_parts(minutes) of MinuteAnd29. */
  lemma SmallerMinuteAnd29ThanMinutes()
    ensures SmallerParts(MinuteAnd29(), Part(Minutes)) == Success([(Seconds, 29.0)])
  {
    var d := MinuteAnd29();
    SmallerPartsAt(d, Minutes, 1);
    assert d.parts[1..] == [(Seconds, 29.0)];
  }

  /** smaller_parts_to_fraction_of(minutes) on MinuteAnd29. */
  lemma FractionMinuteAnd29OfMinutes()
    ensures SmallerPartsToFractionOf(MinuteAnd29(), Part(Minutes)) == Success(29.0 / 60.0)
  {
    assert InUnits(29.0, Minutes) == 29.0 / 60.0;
    TotalOfOne((Seconds, 29.0));
    assert Total([(Seconds, 29.0)]) == 29.0;
    SmallerMinuteAnd29ThanMinutes();
    FractionIs(MinuteAnd29(), Minutes, [(Seconds, 29.0)], 29.0);
  }

  /** The whole quantity round gives minutes on MinuteAnd29: 1. */
  lemma RoundMinuteAnd29ToMinutesValue()
    ensures RoundedValue(MinuteAnd29(), Part(Minutes), HalfUp) == 1
  {
    RoundHalfUnique(1.0 + 29.0 / 60.0, HalfUp, 1);
    assert PartValue(MinuteAnd29(), Part(Minutes)) == 1.0;
    FractionMinuteAnd29OfMinutes();
    RoundedValueIs(MinuteAnd29(), Minutes, HalfUp, 1.0, 29.0 / 60.0, 1);
  }

  /** 1m 29s rounded to minutes: {minutes: 1}. */
  lemma RoundMinuteAnd29ToMinutes()
    ensures Rounded(MinuteAnd29(), Some(Part(Minutes)), HalfUp).value.parts == [(Minutes, 1.0)]
  {
    RoundMinuteAnd29ToMinutesValue();
    CascadeMinuteAnd29ToMinutes1();
    RoundedIs(MinuteAnd29(), Minutes, HalfUp, 1, [(Minutes, 1.0)]);
  }

  /** change_cascade(hours: 1) on HourAnd29. */
  lemma CascadeHourAnd29ToHours1()
    ensures Cascaded(HourAnd29(), [(Part(Hours), Some(1.0))]).value.parts == [(Hours, 1.0)]
  {
    var d := HourAnd29();
    assert Lookup(d.parts, Days) == None;
    assert Lookup(d.parts, Months) == None;
    assert Lookup(d.parts, Years) == None;
    assert SingleSlot(d, Hours, 1.0, Years) == None;
    assert SingleSlot(d, Hours, 1.0, Months) == None;
    assert SingleSlot(d, Hours, 1.0, Days) == None;
    assert SingleSlot(d, Hours, 1.0, Hours) == Some(1.0);
    assert SingleSlot(d, Hours, 1.0, Minutes) == None;
    assert SingleSlot(d, Hours, 1.0, Seconds) == None;
    CascadeIs(d, Hours, 1.0, None, None, None, Some(1.0), None, None, [(Hours, 1.0)]);
  }

  /** 1h 29m truncated to hours: {hours: 1}. */
  lemma TruncateHourAnd29ToHours()
    ensures Truncate(HourAnd29(), Some(Part(Hours))).value.parts == [(Hours, 1.0)]
  {
    assert PartValue(HourAnd29(), Part(Hours)) == 1.0;
    assert TruncateTowardZero(1.0) == 1;
    CascadeHourAnd29ToHours1();
  }

  /** smaller_parts(hours) of HourAnd29. */
  lemma SmallerHourAnd29ThanHours()
    ensures SmallerParts(HourAnd29(), Part(Hours)) == Success([(Minutes, 29.0)])
  {
    var d := HourAnd29();
    SmallerPartsAt(d, Hours, 1);
    assert d.parts[1..] == [(Minutes, 29.0)];
  }

  /** smaller_parts_to_fraction_of(hours) on HourAnd29. */
  lemma FractionHourAnd29OfHours()
    ensures SmallerPartsToFractionOf(HourAnd29(), Part(Hours)) == Success(1740.0 / 3600.0)
  {
    assert InUnits(1740.0, Hours) == 1740.0 / 3600.0;
    TotalOfOne((Minutes, 29.0));
    assert Total([(Minutes, 29.0)]) == 1740.0;
    SmallerHourAnd29ThanHours();
    FractionIs(HourAnd29(), Hours, [(Minutes, 29.0)], 1740.0);
  }

  /** The whole quantity round gives hours on HourAnd29: 1. */
  lemma RoundHourAnd29ToHoursValue()
    ensures RoundedValue(HourAnd29(), Part(Hours), HalfUp) == 1
  {
    RoundHalfUnique(1.0 + 1740.0 / 3600.0, HalfUp, 1);
    assert PartValue(HourAnd29(), Part(Hours)) == 1.0;
    FractionHourAnd29OfHours();
    RoundedValueIs(HourAnd29(), Hours, HalfUp, 1.0, 1740.0 / 3600.0, 1);
  }

  /** 1h 29m rounded to hours: {hours: 1}. */
  lemma RoundHourAnd29ToHours()
    ensures Rounded(HourAnd29(), Some(Part(Hours)), HalfUp).value.parts == [(Hours, 1.0)]
  {
    RoundHourAnd29ToHoursValue();
    CascadeHourAnd29ToHours1();
    RoundedIs(HourAnd29(), Hours, HalfUp, 1, [(Hours, 1.0)]);
  }

  /** change_cascade(hours: 1) on HourAnd89. */
  lemma CascadeHourAnd89ToHours1()
    ensures Cascaded(HourAnd89(), [(Part(Hours), Some(1.0))]).value.parts == [(Hours, 1.0)]
  {
    var d := HourAnd89();
    assert Lookup(d.parts, Days) == None;
    assert Lookup(d.parts, Months) == None;
    assert Lookup(d.parts, Years) == None;
    assert SingleSlot(d, Hours, 1.0, Years) == None;
    assert SingleSlot(d, Hours, 1.0, Months) == None;
    assert SingleSlot(d, Hours, 1.0, Days) == None;
    assert SingleSlot(d, Hours, 1.0, Hours) == Some(1.0);
    assert SingleSlot(d, Hours, 1.0, Minutes) == None;
    assert SingleSlot(d, Hours, 1.0, Seconds) == None;
    CascadeIs(d, Hours, 1.0, None, None, None, Some(1.0), None, None, [(Hours, 1.0)]);
  }

  /** 1h 89m truncated to hours: {hours: 1}; the overfull minutes are dropped. */
  lemma TruncateHourAnd89ToHours()
    ensures Truncate(HourAnd89(), Some(Part(Hours))).value.parts == [(Hours, 1.0)]
  {
    assert PartValue(HourAnd89(), Part(Hours)) == 1.0;
    assert TruncateTowardZero(1.0) == 1;
    CascadeHourAnd89ToHours1();
  }

  /** change_cascade(hours: 2) on TwoHoursAnd29. */
  lemma CascadeTwoHoursAnd29ToHours2()
    ensures Cascaded(TwoHoursAnd29(), [(Part(Hours), Some(2.0))]).value.parts == [(Hours, 2.0)]
  {
    var d := TwoHoursAnd29();
    assert Lookup(d.parts, Days) == None;
    assert Lookup(d.parts, Months) == None;
    assert Lookup(d.parts, Years) == None;
    assert SingleSlot(d, Hours, 2.0, Years) == None;
    assert SingleSlot(d, Hours, 2.0, Months) == None;
    assert SingleSlot(d, Hours, 2.0, Days) == None;
    assert SingleSlot(d, Hours, 2.0, Hours) == Some(2.0);
    assert SingleSlot(d, Hours, 2.0, Minutes) == None;
    assert SingleSlot(d, Hours, 2.0, Seconds) == None;
    CascadeIs(d, Hours, 2.0, None, None, None, Some(2.0), None, None, [(Hours, 2.0)]);
  }

  /** 2h 29m truncated to hours: {hours: 2}. */
  lemma TruncateTwoHoursAnd29ToHours()
    ensures Truncate(TwoHoursAnd29(), Some(Part(Hours))).value.parts == [(Hours, 2.0)]
  {
    assert PartValue(TwoHoursAnd29(), Part(Hours)) == 2.0;
    assert TruncateTowardZero(2.0) == 2;
    CascadeTwoHoursAnd29ToHours2();
  }

  /** smaller_parts(hours) of HourAnd89. */
  lemma SmallerHourAnd89ThanHours()
    ensures SmallerParts(HourAnd89(), Part(Hours)) == Success([(Minutes, 89.0)])
  {
    var d := HourAnd89();
    SmallerPartsAt(d, Hours, 1);
    assert d.parts[1..] == [(Minutes, 89.0)];
  }

  /** change_cascade(hours: 2) on HourAnd89. */
  lemma CascadeHourAnd89ToHours2()
    ensures Cascaded(HourAnd89(), [(Part(Hours), Some(2.0))]).value.parts == [(Hours, 2.0)]
  {
    var d := HourAnd89();
    assert Lookup(d.parts, Days) == None;
    assert Lookup(d.parts, Months) == None;
    assert Lookup(d.parts, Years) == None;
    assert SingleSlot(d, Hours, 2.0, Years) == None;
    assert SingleSlot(d, Hours, 2.0, Months) == None;
    assert SingleSlot(d, Hours, 2.0, Days) == None;
    assert SingleSlot(d, Hours, 2.0, Hours) == Some(2.0);
    assert SingleSlot(d, Hours, 2.0, Minutes) == None;
    assert SingleSlot(d, Hours, 2.0, Seconds) == None;
    CascadeIs(d, Hours, 2.0, None, None, None, Some(2.0), None, None, [(Hours, 2.0)]);
  }

  /** smaller_parts_to_fraction_of(hours) on HourAnd89. */
  lemma FractionHourAnd89OfHours()
    ensures SmallerPartsToFractionOf(HourAnd89(), Part(Hours)) == Success(5340.0 / 3600.0)
  {
    assert InUnits(5340.0, Hours) == 5340.0 / 3600.0;
    TotalOfOne((Minutes, 89.0));
    assert Total([(Minutes, 89.0)]) == 5340.0;
    SmallerHourAnd89ThanHours();
    FractionIs(HourAnd89(), Hours, [(Minutes, 89.0)], 5340.0);
  }

  /** The whole quantity round gives hours on HourAnd89: 2. */
  lemma RoundHourAnd89ToHoursValue()
    ensures RoundedValue(HourAnd89(), Part(Hours), HalfUp) == 2
  {
    RoundHalfUnique(1.0 + 5340.0 / 3600.0, HalfUp, 2);
    assert PartValue(HourAnd89(), Part(Hours)) == 1.0;
    FractionHourAnd89OfHours();
    RoundedValueIs(HourAnd89(), Hours, HalfUp, 1.0, 5340.0 / 3600.0, 2);
  }

  /** 1h 89m rounded to hours: {hours: 2}. */
  lemma RoundHourAnd89ToHours()
    ensures Rounded(HourAnd89(), Some(Part(Hours)), HalfUp).value.parts == [(Hours, 2.0)]
  {
    RoundHourAnd89ToHoursValue();
    CascadeHourAnd89ToHours2();
    RoundedIs(HourAnd89(), Hours, HalfUp, 2, [(Hours, 2.0)]);
  }

  /** change_cascade(hours: 1) on HourAnd90. */
  lemma CascadeHourAnd90ToHours1()
    ensures Cascaded(HourAnd90(), [(Part(Hours), Some(1.0))]).value.parts == [(Hours, 1.0)]
  {
    var d := HourAnd90();
    assert Lookup(d.parts, Days) == None;
    assert Lookup(d.parts, Months) == None;
    assert Lookup(d.parts, Years) == None;
    assert SingleSlot(d, Hours, 1.0, Years) == None;
    assert SingleSlot(d, Hours, 1.0, Months) == None;
    assert SingleSlot(d, Hours, 1.0, Days) == None;
    assert SingleSlot(d, Hours, 1.0, Hours) == Some(1.0);
    assert SingleSlot(d, Hours, 1.0, Minutes) == None;
    assert SingleSlot(d, Hours, 1.0, Seconds) == None;
    CascadeIs(d, Hours, 1.0, None, None, None, Some(1.0), None, None, [(Hours, 1.0)]);
  }

  /** 1h 90m truncated to hours: {hours: 1}. */
  lemma TruncateHourAnd90ToHours()
    ensures Truncate(HourAnd90(), Some(Part(Hours))).value.parts == [(Hours, 1.0)]
  {
    assert PartValue(HourAnd90(), Part(Hours)) == 1.0;
    assert TruncateTowardZero(1.0) == 1;
    CascadeHourAnd90ToHours1();
  }

  /** change_cascade(hours: 2) on TwoHoursAnd30. */
  lemma CascadeTwoHoursAnd30ToHours2()
    ensures Cascaded(TwoHoursAnd30(), [(Part(Hours), Some(2.0))]).value.parts == [(Hours, 2.0)]
  {
    var d := TwoHoursAnd30();
    assert Lookup(d.parts, Days) == None;
    assert Lookup(d.parts, Months) == None;
    assert Lookup(d.parts, Years) == None;
    assert SingleSlot(d, Hours, 2.0, Years) == None;
    assert SingleSlot(d, Hours, 2.0, Months) == None;
    assert SingleSlot(d, Hours, 2.0, Days) == None;
    assert SingleSlot(d, Hours, 2.0, Hours) == Some(2.0);
    assert SingleSlot(d, Hours, 2.0, Minutes) == None;
    assert SingleSlot(d, Hours, 2.0, Seconds) == None;
    CascadeIs(d, Hours, 2.0, None, None, None, Some(2.0), None, None, [(Hours, 2.0)]);
  }

  /** 2h 30m truncated to hours: {hours: 2}. */
  lemma TruncateTwoHoursAnd30ToHours()
    ensures Truncate(TwoHoursAnd30(), Some(Part(Hours))).value.parts == [(Hours, 2.0)]
  {
    assert PartValue(TwoHoursAnd30(), Part(Hours)) == 2.0;
    assert TruncateTowardZero(2.0) == 2;
    CascadeTwoHoursAnd30ToHours2();
  }

  /** smaller_parts(hours) of HourAnd90. */
  lemma SmallerHourAnd90ThanHours()
    ensures SmallerParts(HourAnd90(), Part(Hours)) == Success([(Minutes, 90.0)])
  {
    var d := HourAnd90();
    SmallerPartsAt(d, Hours, 1);
    assert d.parts[1..] == [(Minutes, 90.0)];
  }

  /** change_cascade(hours: 3) on HourAnd90. */
  lemma CascadeHourAnd90ToHours3()
    ensures Cascaded(HourAnd90(), [(Part(Hours), Some(3.0))]).value.parts == [(Hours, 3.0)]
  {
    var d := HourAnd90();
    assert Lookup(d.parts, Days) == None;
    assert Lookup(d.parts, Months) == None;
    assert Lookup(d.parts, Years) == None;
    assert SingleSlot(d, Hours, 3.0, Years) == None;
    assert SingleSlot(d, Hours, 3.0, Months) == None;
    assert SingleSlot(d, Hours, 3.0, Days) == None;
    assert SingleSlot(d, Hours, 3.0, Hours) == Some(3.0);
    assert SingleSlot(d, Hours, 3.0, Minutes) == None;
    assert SingleSlot(d, Hours, 3.0, Seconds) == None;
    CascadeIs(d, Hours, 3.0, None, None, None, Some(3.0), None, None, [(Hours, 3.0)]);
  }

  /** smaller_parts_to_fraction_of(hours) on HourAnd90. */
  lemma FractionHourAnd90OfHours()
    ensures SmallerPartsToFractionOf(HourAnd90(), Part(Hours)) == Success(5400.0 / 3600.0)
  {
    assert InUnits(5400.0, Hours) == 5400.0 / 3600.0;
    TotalOfOne((Minutes, 90.0));
    assert Total([(Minutes, 90.0)]) == 5400.0;
    SmallerHourAnd90ThanHours();
    FractionIs(HourAnd90(), Hours, [(Minutes, 90.0)], 5400.0);
  }

  /** The whole quantity round gives hours on HourAnd90: 3. */
  lemma RoundHourAnd90ToHoursValue()
    ensures RoundedValue(HourAnd90(), Part(Hours), HalfUp) == 3
  {
    RoundHalfTie(2.5, 2);
    assert PartValue(HourAnd90(), Part(Hours)) == 1.0;
    FractionHourAnd90OfHours();
    RoundedValueIs(HourAnd90(), Hours, HalfUp, 1.0, 5400.0 / 3600.0, 3);
  }

  /** 1h 90m rounded to hours: 1 + 3/2 rounds half up to {hours: 3}. */
  lemma RoundHourAnd90ToHours()
    ensures Rounded(HourAnd90(), Some(Part(Hours)), HalfUp).value.parts == [(Hours, 3.0)]
  {
    RoundHourAnd90ToHoursValue();
    CascadeHourAnd90ToHours3();
    RoundedIs(HourAnd90(), Hours, HalfUp, 3, [(Hours, 3.0)]);
  }

  /** change_cascade(minutes: 0) on ThirtySeconds. */
  lemma CascadeThirtySecondsToMinutes0()
    ensures Cascaded(ThirtySeconds(), [(Part(Minutes), Some(0.0))]).value.parts == []
  {
    var d := ThirtySeconds();
    assert Lookup(d.parts, Hours) == None;
    assert Lookup(d.parts, Days) == None;
    assert Lookup(d.parts, Months) == None;
    assert Lookup(d.parts, Years) == None;
    assert SingleSlot(d, Minutes, 0.0, Years) == None;
    assert SingleSlot(d, Minutes, 0.0, Months) == None;
    assert SingleSlot(d, Minutes, 0.0, Days) == None;
    assert SingleSlot(d, Minutes, 0.0, Hours) == None;
    assert SingleSlot(d, Minutes, 0.0, Minutes) == None;
    assert SingleSlot(d, Minutes, 0.0, Seconds) == None;
    CascadeIs(d, Minutes, 0.0, None, None, None, None, None, None, []);
  }

  /** 30 seconds truncated to minutes: no parts and a length of zero. */
  lemma TruncateThirtySecondsToMinutes()
    ensures Truncate(ThirtySeconds(), Some(Part(Minutes))) == Success(Duration(0.0, []))
  {
    assert PartValue(ThirtySeconds(), Part(Minutes)) == 0.0;
    assert TruncateTowardZero(0.0) == 0;
    CascadeThirtySecondsToMinutes0();
    assert Total([]) == 0.0;
  }

  /** smaller_parts(minutes) of ThirtySeconds. */
  lemma SmallerThirtySecondsThanMinutes()
    ensures SmallerParts(ThirtySeconds(), Part(Minutes)) == Success([(Seconds, 30.0)])
  {
    var d := ThirtySeconds();
    SmallerPartsAt(d, Minutes, 0);
    assert d.parts[0..] == [(Seconds, 30.0)];
  }

  /** change_cascade(minutes: 1) on ThirtySeconds. */
  lemma CascadeThirtySecondsToMinutes1()
    ensures Cascaded(ThirtySeconds(), [(Part(Minutes), Some(1.0))]).value.parts == [(Minutes, 1.0)]
  {
    var d := ThirtySeconds();
    assert Lookup(d.parts, Hours) == None;
    assert Lookup(d.parts, Days) == None;
    assert Lookup(d.parts, Months) == None;
    assert Lookup(d.parts, Years) == None;
    assert SingleSlot(d, Minutes, 1.0, Years) == None;
    assert SingleSlot(d, Minutes, 1.0, Months) == None;
    assert SingleSlot(d, Minutes, 1.0, Days) == None;
    assert SingleSlot(d, Minutes, 1.0, Hours) == None;
    assert SingleSlot(d, Minutes, 1.0, Minutes) == Some(1.0);
    assert SingleSlot(d, Minutes, 1.0, Seconds) == None;
    CascadeIs(d, Minutes, 1.0, None, None, None, None, Some(1.0), None, [(Minutes, 1.0)]);
  }

  /** smaller_parts_to_fraction_of(minutes) on ThirtySeconds. */
  lemma FractionThirtySecondsOfMinutes()
    ensures SmallerPartsToFractionOf(ThirtySeconds(), Part(Minutes)) == Success(30.0 / 60.0)
  {
    assert InUnits(30.0, Minutes) == 30.0 / 60.0;
    TotalOfOne((Seconds, 30.0));
    assert Total([(Seconds, 30.0)]) == 30.0;
    SmallerThirtySecondsThanMinutes();
    FractionIs(ThirtySeconds(), Minutes, [(Seconds, 30.0)], 30.0);
  }

  /** The whole quantity round gives minutes on ThirtySeconds: 1. */
  lemma RoundThirtySecondsToMinutesValue()
    ensures RoundedValue(ThirtySeconds(), Part(Minutes), HalfUp) == 1
  {
    RoundHalfTie(0.5, 0);
    assert PartValue(ThirtySeconds(), Part(Minutes)) == 0.0;
    FractionThirtySecondsOfMinutes();
    RoundedValueIs(ThirtySeconds(), Minutes, HalfUp, 0.0, 30.0 / 60.0, 1);
  }

  /** 30 seconds rounded to minutes: {minutes: 1}. */
  lemma RoundThirtySecondsToMinutes()
    ensures Rounded(ThirtySeconds(), Some(Part(Minutes)), HalfUp).value.parts == [(Minutes, 1.0)]
  {
    RoundThirtySecondsToMinutesValue();
    CascadeThirtySecondsToMinutes1();
    RoundedIs(ThirtySeconds(), Minutes, HalfUp, 1, [(Minutes, 1.0)]);
  }

  /** change_cascade(minutes: 0) on EightyNineSeconds. */
  lemma CascadeEightyNineSecondsToMinutes0()
    ensures Cascaded(EightyNineSeconds(), [(Part(Minutes), Some(0.0))]).value.parts == []
  {
    var d := EightyNineSeconds();
    assert Lookup(d.parts, Hours) == None;
    assert Lookup(d.parts, Days) == None;
    assert Lookup(d.parts, Months) == None;
    assert Lookup(d.parts, Years) == None;
    assert SingleSlot(d, Minutes, 0.0, Years) == None;
    assert SingleSlot(d, Minutes, 0.0, Months) == None;
    assert SingleSlot(d, Minutes, 0.0, Days) == None;
    assert SingleSlot(d, Minutes, 0.0, Hours) == None;
    assert SingleSlot(d, Minutes, 0.0, Minutes) == None;
    assert SingleSlot(d, Minutes, 0.0, Seconds) == None;
    CascadeIs(d, Minutes, 0.0, None, None, None, None, None, None, []);
  }

  /** 89 seconds truncated to minutes: no parts, since there is no minutes part to keep. */
  lemma TruncateEightyNineSecondsToMinutes()
    ensures Truncate(EightyNineSeconds(), Some(Part(Minutes))).value.parts == []
  {
    assert PartValue(EightyNineSeconds(), Part(Minutes)) == 0.0;
    assert TruncateTowardZero(0.0) == 0;
    CascadeEightyNineSecondsToMinutes0();
  }

  /** smaller_parts(minutes) of EightyNineSeconds. */
  lemma SmallerEightyNineSecondsThanMinutes()
    ensures SmallerParts(EightyNineSeconds(), Part(Minutes)) == Success([(Seconds, 89.0)])
  {
    var d := EightyNineSeconds();
    SmallerPartsAt(d, Minutes, 0);
    assert d.parts[0..] == [(Seconds, 89.0)];
  }

  /** change_cascade(minutes: 1) on EightyNineSeconds. */
  lemma CascadeEightyNineSecondsToMinutes1()
    ensures Cascaded(EightyNineSeconds(), [(Part(Minutes), Some(1.0))]).value.parts == [(Minutes, 1.0)]
  {
    var d := EightyNineSeconds();
    assert Lookup(d.parts, Hours) == None;
    assert Lookup(d.parts, Days) == None;
    assert Lookup(d.parts, Months) == None;
    assert Lookup(d.parts, Years) == None;
    assert SingleSlot(d, Minutes, 1.0, Years) == None;
    assert SingleSlot(d, Minutes, 1.0, Months) == None;
    assert SingleSlot(d, Minutes, 1.0, Days) == None;
    assert SingleSlot(d, Minutes, 1.0, Hours) == None;
    assert SingleSlot(d, Minutes, 1.0, Minutes) == Some(1.0);
    assert SingleSlot(d, Minutes, 1.0, Seconds) == None;
    CascadeIs(d, Minutes, 1.0, None, None, None, None, Some(1.0), None, [(Minutes, 1.0)]);
  }

  /** smaller_parts_to_fraction_of(minutes) on EightyNineSeconds. */
  lemma FractionEightyNineSecondsOfMinutes()
    ensures SmallerPartsToFractionOf(EightyNineSeconds(), Part(Minutes)) == Success(89.0 / 60.0)
  {
    assert InUnits(89.0, Minutes) == 89.0 / 60.0;
    TotalOfOne((Seconds, 89.0));
    assert Total([(Seconds, 89.0)]) == 89.0;
    SmallerEightyNineSecondsThanMinutes();
    FractionIs(EightyNineSeconds(), Minutes, [(Seconds, 89.0)], 89.0);
  }

  /** The whole quantity round gives minutes on EightyNineSeconds: 1. */
  lemma RoundEightyNineSecondsToMinutesValue()
    ensures RoundedValue(EightyNineSeconds(), Part(Minutes), HalfUp) == 1
  {
    RoundHalfUnique(0.0 + 89.0 / 60.0, HalfUp, 1);
    assert PartValue(EightyNineSeconds(), Part(Minutes)) == 0.0;
    FractionEightyNineSecondsOfMinutes();
    RoundedValueIs(EightyNineSeconds(), Minutes, HalfUp, 0.0, 89.0 / 60.0, 1);
  }

  /** 89 seconds rounded to minutes: {minutes: 1}. */
  lemma RoundEightyNineSecondsToMinutes()
    ensures Rounded(EightyNineSeconds(), Some(Part(Minutes)), HalfUp).value.parts == [(Minutes, 1.0)]
  {
    RoundEightyNineSecondsToMinutesValue();
    CascadeEightyNineSecondsToMinutes1();
    RoundedIs(EightyNineSeconds(), Minutes, HalfUp, 1, [(Minutes, 1.0)]);
  }

  /** smaller_parts(minutes) of NinetySeconds. */
  lemma SmallerNinetySecondsThanMinutes()
    ensures SmallerParts(NinetySeconds(), Part(Minutes)) == Success([(Seconds, 90.0)])
  {
    var d := NinetySeconds();
    SmallerPartsAt(d, Minutes, 0);
    assert d.parts[0..] == [(Seconds, 90.0)];
  }

  /** change_cascade(minutes: 2) on NinetySeconds. */
  lemma CascadeNinetySecondsToMinutes2()
    ensures Cascaded(NinetySeconds(), [(Part(Minutes), Some(2.0))]).value.parts == [(Minutes, 2.0)]
  {
    var d := NinetySeconds();
    assert Lookup(d.parts, Hours) == None;
    assert Lookup(d.parts, Days) == None;
    assert Lookup(d.parts, Months) == None;
    assert Lookup(d.parts, Years) == None;
    assert SingleSlot(d, Minutes, 2.0, Years) == None;
    assert SingleSlot(d, Minutes, 2.0, Months) == None;
    assert SingleSlot(d, Minutes, 2.0, Days) == None;
    assert SingleSlot(d, Minutes, 2.0, Hours) == None;
    assert SingleSlot(d, Minutes, 2.0, Minutes) == Some(2.0);
    assert SingleSlot(d, Minutes, 2.0, Seconds) == None;
    CascadeIs(d, Minutes, 2.0, None, None, None, None, Some(2.0), None, [(Minutes, 2.0)]);
  }

  /** smaller_parts_to_fraction_of(minutes) on NinetySeconds. */
  lemma FractionNinetySecondsOfMinutes()
    ensures SmallerPartsToFractionOf(NinetySeconds(), Part(Minutes)) == Success(90.0 / 60.0)
  {
    assert InUnits(90.0, Minutes) == 90.0 / 60.0;
    TotalOfOne((Seconds, 90.0));
    assert Total([(Seconds, 90.0)]) == 90.0;
    SmallerNinetySecondsThanMinutes();
    FractionIs(NinetySeconds(), Minutes, [(Seconds, 90.0)], 90.0);
  }

  /** The whole quantity round gives minutes on NinetySeconds: 2. */
  lemma RoundNinetySecondsToMinutesValue()
    ensures RoundedValue(NinetySeconds(), Part(Minutes), HalfUp) == 2
  {
    RoundHalfTie(1.5, 1);
    assert PartValue(NinetySeconds(), Part(Minutes)) == 0.0;
    FractionNinetySecondsOfMinutes();
    RoundedValueIs(NinetySeconds(), Minutes, HalfUp, 0.0, 90.0 / 60.0, 2);
  }

  /** 90 seconds rounded to minutes: {minutes: 2}. */
  lemma RoundNinetySecondsToMinutes()
    ensures Rounded(NinetySeconds(), Some(Part(Minutes)), HalfUp).value.parts == [(Minutes, 2.0)]
  {
    RoundNinetySecondsToMinutesValue();
    CascadeNinetySecondsToMinutes2();
    RoundedIs(NinetySeconds(), Minutes, HalfUp, 2, [(Minutes, 2.0)]);
  }

  /** change_cascade(minutes: 1) on MinuteAnd30. */
  lemma CascadeMinuteAnd30ToMinutes1()
    ensures Cascaded(MinuteAnd30(), [(Part(Minutes), Some(1.0))]).value.parts == [(Minutes, 1.0)]
  {
    var d := MinuteAnd30();
    assert Lookup(d.parts, Hours) == None;
    assert Lookup(d.parts, Days) == None;
    assert Lookup(d.parts, Months) == None;
    assert Lookup(d.parts, Years) == None;
    assert SingleSlot(d, Minutes, 1.0, Years) == None;
    assert SingleSlot(d, Minutes, 1.0, Months) == None;
    assert SingleSlot(d, Minutes, 1.0, Days) == None;
    assert SingleSlot(d, Minutes, 1.0, Hours) == None;
    assert SingleSlot(d, Minutes, 1.0, Minutes) == Some(1.0);
    assert SingleSlot(d, Minutes, 1.0, Seconds) == None;
    CascadeIs(d, Minutes, 1.0, None, None, None, None, Some(1.0), None, [(Minutes, 1.0)]);
  }

  /** 1m 30s truncated to minutes: {minutes: 1}. */
  lemma TruncateMinuteAnd30ToMinutes()
    ensures Truncate(MinuteAnd30(), Some(Part(Minutes))).value.parts == [(Minutes, 1.0)]
  {
    assert PartValue(MinuteAnd30(), Part(Minutes)) == 1.0;
    assert TruncateTowardZero(1.0) == 1;
    CascadeMinuteAnd30ToMinutes1();
  }

  /** smaller_parts(minutes) of MinuteAnd30. */
  lemma SmallerMinuteAnd30ThanMinutes()
    ensures SmallerParts(MinuteAnd30(), Part(Minutes)) == Success([(Seconds, 30.0)])
  {
    var d := MinuteAnd30();
    SmallerPartsAt(d, Minutes, 1);
    assert d.parts[1..] == [(Seconds, 30.0)];
  }

  /** change_cascade(minutes: 2) on MinuteAnd30. */
  lemma CascadeMinuteAnd30ToMinutes2()
    ensures Cascaded(MinuteAnd30(), [(Part(Minutes), Some(2.0))]).value.parts == [(Minutes, 2.0)]
  {
    var d := MinuteAnd30();
    assert Lookup(d.parts, Hours) == None;
    assert Lookup(d.parts, Days) == None;
    assert Lookup(d.parts, Months) == None;
    assert Lookup(d.parts, Years) == None;
    assert SingleSlot(d, Minutes, 2.0, Years) == None;
    assert SingleSlot(d, Minutes, 2.0, Months) == None;
    assert SingleSlot(d, Minutes, 2.0, Days) == None;
    assert SingleSlot(d, Minutes, 2.0, Hours) == None;
    assert SingleSlot(d, Minutes, 2.0, Minutes) == Some(2.0);
    assert SingleSlot(d, Minutes, 2.0, Seconds) == None;
    CascadeIs(d, Minutes, 2.0, None, None, None, None, Some(2.0), None, [(Minutes, 2.0)]);
  }

  /** smaller_parts_to_fraction_of(minutes) on MinuteAnd30. */
  lemma FractionMinuteAnd30OfMinutes()
    ensures SmallerPartsToFractionOf(MinuteAnd30(), Part(Minutes)) == Success(30.0 / 60.0)
  {
    assert InUnits(30.0, Minutes) == 30.0 / 60.0;
    TotalOfOne((Seconds, 30.0));
    assert Total([(Seconds, 30.0)]) == 30.0;
    SmallerMinuteAnd30ThanMinutes();
    FractionIs(MinuteAnd30(), Minutes, [(Seconds, 30.0)], 30.0);
  }

  /** The whole quantity round gives minutes on MinuteAnd30: 2. */
  lemma RoundMinuteAnd30ToMinutesValue()
    ensures RoundedValue(MinuteAnd30(), Part(Minutes), HalfUp) == 2
  {
    RoundHalfTie(1.5, 1);
    assert PartValue(MinuteAnd30(), Part(Minutes)) == 1.0;
    FractionMinuteAnd30OfMinutes();
    RoundedValueIs(MinuteAnd30(), Minutes, HalfUp, 1.0, 30.0 / 60.0, 2);
  }

  /** 1m 30s rounded to minutes: {minutes: 2}. */
  lemma RoundMinuteAnd30ToMinutes()
    ensures Rounded(MinuteAnd30(), Some(Part(Minutes)), HalfUp).value.parts == [(Minutes, 2.0)]
  {
    RoundMinuteAnd30ToMinutesValue();
    CascadeMinuteAnd30ToMinutes2();
    RoundedIs(MinuteAnd30(), Minutes, HalfUp, 2, [(Minutes, 2.0)]);
  }

  /** change_cascade(minutes: 29) on HourAndHalfMinutes. */
  lemma CascadeHourAndHalfMinutesToMinutes29()
    ensures Cascaded(HourAndHalfMinutes(), [(Part(Minutes), Some(29.0))]).value.parts == [(Hours, 1.0), (Minutes, 29.0)]
  {
    var d := HourAndHalfMinutes();
    assert Lookup(d.parts, Hours) == Some(1.0);
    assert Lookup(d.parts, Days) == None;
    assert Lookup(d.parts, Months) == None;
    assert Lookup(d.parts, Years) == None;
    assert SingleSlot(d, Minutes, 29.0, Years) == None;
    assert SingleSlot(d, Minutes, 29.0, Months) == None;
    assert SingleSlot(d, Minutes, 29.0, Days) == None;
    assert SingleSlot(d, Minutes, 29.0, Hours) == Some(1.0);
    assert SingleSlot(d, Minutes, 29.0, Minutes) == Some(29.0);
    assert SingleSlot(d, Minutes, 29.0, Seconds) == None;
    CascadeIs(d, Minutes, 29.0, None, None, None, Some(1.0), Some(29.0), None, [(Hours, 1.0), (Minutes, 29.0)]);
  }

  /** Truncated to its smallest unit by default: {hours: 1, minutes: 29}. */
  lemma TruncateHourAndHalfMinutesByDefault()
    ensures Truncate(HourAndHalfMinutes(), None).value.parts == [(Hours, 1.0), (Minutes, 29.0)]
  {
    TruncatedByDefault(HourAndHalfMinutes());
    assert PartValue(HourAndHalfMinutes(), Part(Minutes)) == 29.5;
    assert TruncateTowardZero(29.5) == 29;
    CascadeHourAndHalfMinutesToMinutes29();
  }

  /** smaller_parts(minutes) of HourAndHalfMinutes. */
  lemma SmallerHourAndHalfMinutesThanMinutes()
    ensures SmallerParts(HourAndHalfMinutes(), Part(Minutes)) == Success([])
  {
    var d := HourAndHalfMinutes();
    SmallerPartsAt(d, Minutes, 2);
    assert d.parts[2..] == [];
  }

  /** change_cascade(minutes: 30) on HourAndHalfMinutes. */
  lemma CascadeHourAndHalfMinutesToMinutes30()
    ensures Cascaded(HourAndHalfMinutes(), [(Part(Minutes), Some(30.0))]).value.parts == [(Hours, 1.0), (Minutes, 30.0)]
  {
    var d := HourAndHalfMinutes();
    assert Lookup(d.parts, Hours) == Some(1.0);
    assert Lookup(d.parts, Days) == None;
    assert Lookup(d.parts, Months) == None;
    assert Lookup(d.parts, Years) == None;
    assert SingleSlot(d, Minutes, 30.0, Years) == None;
    assert SingleSlot(d, Minutes, 30.0, Months) == None;
    assert SingleSlot(d, Minutes, 30.0, Days) == None;
    assert SingleSlot(d, Minutes, 30.0, Hours) == Some(1.0);
    assert SingleSlot(d, Minutes, 30.0, Minutes) == Some(30.0);
    assert SingleSlot(d, Minutes, 30.0, Seconds) == None;
    CascadeIs(d, Minutes, 30.0, None, None, None, Some(1.0), Some(30.0), None, [(Hours, 1.0), (Minutes, 30.0)]);
  }

  /** smaller_parts_to_fraction_of(minutes) on HourAndHalfMinutes. */
  lemma FractionHourAndHalfMinutesOfMinutes()
    ensures SmallerPartsToFractionOf(HourAndHalfMinutes(), Part(Minutes)) == Success(0.0 / 60.0)
  {
    assert InUnits(0.0, Minutes) == 0.0 / 60.0;
    assert Total([]) == 0.0;
    SmallerHourAndHalfMinutesThanMinutes();
    FractionIs(HourAndHalfMinutes(), Minutes, [], 0.0);
  }

  /** The whole quantity round gives minutes on HourAndHalfMinutes: 30. */
  lemma RoundHourAndHalfMinutesByDefaultValue()
    ensures RoundedValue(HourAndHalfMinutes(), Part(Minutes), HalfUp) == 30
  {
    RoundHalfTie(29.5, 29);
    assert PartValue(HourAndHalfMinutes(), Part(Minutes)) == 29.5;
    FractionHourAndHalfMinutesOfMinutes();
    RoundedValueIs(HourAndHalfMinutes(), Minutes, HalfUp, 29.5, 0.0 / 60.0, 30);
  }

  /** Rounded to its smallest unit by default: {hours: 1, minutes: 30}. */
  lemma RoundHourAndHalfMinutesByDefault()
    ensures Rounded(HourAndHalfMinutes(), None, HalfUp).value.parts == [(Hours, 1.0), (Minutes, 30.0)]
  {
    RoundHourAndHalfMinutesByDefaultValue();
    CascadeHourAndHalfMinutesToMinutes30();
    RoundedIs(HourAndHalfMinutes(), Minutes, HalfUp, 30, [(Hours, 1.0), (Minutes, 30.0)]);
    RoundedByDefault(HourAndHalfMinutes(), HalfUp);
  }

  /** The whole quantity round gives seconds on TwoAndAHalfSeconds: 3. */
  lemma RoundTwoAndAHalfSecondsByDefaultValue()
    ensures RoundedValue(TwoAndAHalfSeconds(), Part(Seconds), HalfUp) == 3
  {
    RoundHalfTie(2.5, 2);
    assert PartValue(TwoAndAHalfSeconds(), Part(Seconds)) == 2.5;
    FractionTwoAndAHalfSecondsOfSeconds();
    RoundedValueIs(TwoAndAHalfSeconds(), Seconds, HalfUp, 2.5, 0.0 / 1.0, 3);
  }

  /** 2.5.seconds.round is 3.seconds. */
  lemma RoundTwoAndAHalfSecondsByDefault()
    ensures Rounded(TwoAndAHalfSeconds(), None, HalfUp) == Success(Duration(3.0, [(Seconds, 3.0)]))
  {
    RoundTwoAndAHalfSecondsByDefaultValue();
    CascadeTwoAndAHalfSecondsToSeconds3();
    RoundedIs(TwoAndAHalfSeconds(), Seconds, HalfUp, 3, [(Seconds, 3.0)]);
    RoundedByDefault(TwoAndAHalfSeconds(), HalfUp);
    TotalOfOne((Seconds, 3.0));
    assert Total([(Seconds, 3.0)]) == 3.0;
  }

  /** The whole quantity round gives seconds on TwoAndAHalfSeconds: 2. */
  lemma RoundTwoAndAHalfSecondsHalfDownValue()
    ensures RoundedValue(TwoAndAHalfSeconds(), Part(Seconds), HalfDown) == 2
  {
    RoundHalfTie(2.5, 2);
    assert PartValue(TwoAndAHalfSeconds(), Part(Seconds)) == 2.5;
    FractionTwoAndAHalfSecondsOfSeconds();
    RoundedValueIs(TwoAndAHalfSeconds(), Seconds, HalfDown, 2.5, 0.0 / 1.0, 2);
  }

  /** 2.5.seconds.round(half: :down) is 2.seconds. */
  lemma RoundTwoAndAHalfSecondsHalfDown()
    ensures Rounded(TwoAndAHalfSeconds(), None, HalfDown) == Success(Duration(2.0, [(Seconds, 2.0)]))
  {
    RoundTwoAndAHalfSecondsHalfDownValue();
    CascadeTwoAndAHalfSecondsToSeconds2();
    RoundedIs(TwoAndAHalfSeconds(), Seconds, HalfDown, 2, [(Seconds, 2.0)]);
    RoundedByDefault(TwoAndAHalfSeconds(), HalfDown);
    TotalOfOne((Seconds, 2.0));
    assert Total([(Seconds, 2.0)]) == 2.0;
  }

  /** change_cascade(minutes: 1) on FractionalMinutes. */
  lemma CascadeFractionalMinutesToMinutes1()
    ensures Cascaded(FractionalMinutes(), [(Part(Minutes), Some(1.0))]).value.parts == [(Minutes, 1.0)]
  {
    var d := FractionalMinutes();
    assert Lookup(d.parts, Hours) == None;
    assert Lookup(d.parts, Days) == None;
    assert Lookup(d.parts, Months) == None;
    assert Lookup(d.parts, Years) == None;
    assert SingleSlot(d, Minutes, 1.0, Years) == None;
    assert SingleSlot(d, Minutes, 1.0, Months) == None;
    assert SingleSlot(d, Minutes, 1.0, Days) == None;
    assert SingleSlot(d, Minutes, 1.0, Hours) == None;
    assert SingleSlot(d, Minutes, 1.0, Minutes) == Some(1.0);
    assert SingleSlot(d, Minutes, 1.0, Seconds) == None;
    CascadeIs(d, Minutes, 1.0, None, None, None, None, Some(1.0), None, [(Minutes, 1.0)]);
  }

  /** 1.4m 25s truncated to minutes: {minutes: 1}. */
  lemma TruncateFractionalMinutesToMinutes()
    ensures Truncate(FractionalMinutes(), Some(Part(Minutes))).value.parts == [(Minutes, 1.0)]
  {
    assert PartValue(FractionalMinutes(), Part(Minutes)) == 1.4;
    assert TruncateTowardZero(1.4) == 1;
    CascadeFractionalMinutesToMinutes1();
  }

  /** smaller_parts(minutes) of FractionalMinutes. */
  lemma SmallerFractionalMinutesThanMinutes()
    ensures SmallerParts(FractionalMinutes(), Part(Minutes)) == Success([(Seconds, 25.0)])
  {
    var d := FractionalMinutes();
    SmallerPartsAt(d, Minutes, 1);
    assert d.parts[1..] == [(Seconds, 25.0)];
  }

  /** change_cascade(minutes: 2) on FractionalMinutes. */
  lemma CascadeFractionalMinutesToMinutes2()
    ensures Cascaded(FractionalMinutes(), [(Part(Minutes), Some(2.0))]).value.parts == [(Minutes, 2.0)]
  {
    var d := FractionalMinutes();
    assert Lookup(d.parts, Hours) == None;
    assert Lookup(d.parts, Days) == None;
    assert Lookup(d.parts, Months) == None;
    assert Lookup(d.parts, Years) == None;
    assert SingleSlot(d, Minutes, 2.0, Years) == None;
    assert SingleSlot(d, Minutes, 2.0, Months) == None;
    assert SingleSlot(d, Minutes, 2.0, Days) == None;
    assert SingleSlot(d, Minutes, 2.0, Hours) == None;
    assert SingleSlot(d, Minutes, 2.0, Minutes) == Some(2.0);
    assert SingleSlot(d, Minutes, 2.0, Seconds) == None;
    CascadeIs(d, Minutes, 2.0, None, None, None, None, Some(2.0), None, [(Minutes, 2.0)]);
  }

  /** smaller_parts_to_fraction_of(minutes) on FractionalMinutes. */
  lemma FractionFractionalMinutesOfMinutes()
    ensures SmallerPartsToFractionOf(FractionalMinutes(), Part(Minutes)) == Success(25.0 / 60.0)
  {
    assert InUnits(25.0, Minutes) == 25.0 / 60.0;
    TotalOfOne((Seconds, 25.0));
    assert Total([(Seconds, 25.0)]) == 25.0;
    SmallerFractionalMinutesThanMinutes();
    FractionIs(FractionalMinutes(), Minutes, [(Seconds, 25.0)], 25.0);
  }

  /** The whole quantity round gives minutes on FractionalMinutes: 2. */
  lemma RoundFractionalMinutesToMinutesValue()
    ensures RoundedValue(FractionalMinutes(), Part(Minutes), HalfUp) == 2
  {
    RoundHalfUnique(1.4 + 25.0 / 60.0, HalfUp, 2);
    assert PartValue(FractionalMinutes(), Part(Minutes)) == 1.4;
    FractionFractionalMinutesOfMinutes();
    RoundedValueIs(FractionalMinutes(), Minutes, HalfUp, 1.4, 25.0 / 60.0, 2);
  }

  /** 1.4m 25s rounded to minutes: 1.4 + 25/60 rounds to {minutes: 2}. */
  lemma RoundFractionalMinutesToMinutes()
    ensures Rounded(FractionalMinutes(), Some(Part(Minutes)), HalfUp).value.parts == [(Minutes, 2.0)]
  {
    RoundFractionalMinutesToMinutesValue();
    CascadeFractionalMinutesToMinutes2();
    RoundedIs(FractionalMinutes(), Minutes, HalfUp, 2, [(Minutes, 2.0)]);
  }

  /** change_cascade(hours: 1) on OverfullMinute. */
  lemma CascadeOverfullMinuteToHours1()
    ensures Cascaded(OverfullMinute(), [(Part(Hours), Some(1.0))]).value.parts == [(Hours, 1.0)]
  {
    var d := OverfullMinute();
    assert Lookup(d.parts, Days) == None;
    assert Lookup(d.parts, Months) == None;
    assert Lookup(d.parts, Years) == None;
    assert SingleSlot(d, Hours, 1.0, Years) == None;
    assert SingleSlot(d, Hours, 1.0, Months) == None;
    assert SingleSlot(d, Hours, 1.0, Days) == None;
    assert SingleSlot(d, Hours, 1.0, Hours) == Some(1.0);
    assert SingleSlot(d, Hours, 1.0, Minutes) == None;
    assert SingleSlot(d, Hours, 1.0, Seconds) == None;
    CascadeIs(d, Hours, 1.0, None, None, None, Some(1.0), None, None, [(Hours, 1.0)]);
  }

  /** 1h 29m 60s truncated to hours: {hours: 1}. */
  lemma TruncateOverfullMinuteToHours()
    ensures Truncate(OverfullMinute(), Some(Part(Hours))).value.parts == [(Hours, 1.0)]
  {
    assert PartValue(OverfullMinute(), Part(Hours)) == 1.0;
    assert TruncateTowardZero(1.0) == 1;
    CascadeOverfullMinuteToHours1();
  }

  /** smaller_parts(hours) of HourAnd30. */
  lemma SmallerHourAnd30ThanHours()
    ensures SmallerParts(HourAnd30(), Part(Hours)) == Success([(Minutes, 30.0)])
  {
    var d := HourAnd30();
    SmallerPartsAt(d, Hours, 1);
    assert d.parts[1..] == [(Minutes, 30.0)];
  }

  /** change_cascade(hours: 2) on HourAnd30. */
  lemma CascadeHourAnd30ToHours2()
    ensures Cascaded(HourAnd30(), [(Part(Hours), Some(2.0))]).value.parts == [(Hours, 2.0)]
  {
    var d := HourAnd30();
    assert Lookup(d.parts, Days) == None;
    assert Lookup(d.parts, Months) == None;
    assert Lookup(d.parts, Years) == None;
    assert SingleSlot(d, Hours, 2.0, Years) == None;
    assert SingleSlot(d, Hours, 2.0, Months) == None;
    assert SingleSlot(d, Hours, 2.0, Days) == None;
    assert SingleSlot(d, Hours, 2.0, Hours) == Some(2.0);
    assert SingleSlot(d, Hours, 2.0, Minutes) == None;
    assert SingleSlot(d, Hours, 2.0, Seconds) == None;
    CascadeIs(d, Hours, 2.0, None, None, None, Some(2.0), None, None, [(Hours, 2.0)]);
  }

  /** smaller_parts_to_fraction_of(hours) on HourAnd30. */
  lemma FractionHourAnd30OfHours()
    ensures SmallerPartsToFractionOf(HourAnd30(), Part(Hours)) == Success(1800.0 / 3600.0)
  {
    assert InUnits(1800.0, Hours) == 1800.0 / 3600.0;
    TotalOfOne((Minutes, 30.0));
    assert Total([(Minutes, 30.0)]) == 1800.0;
    SmallerHourAnd30ThanHours();
    FractionIs(HourAnd30(), Hours, [(Minutes, 30.0)], 1800.0);
  }

  /** The whole quantity round gives hours on HourAnd30: 2. */
  lemma RoundHourAnd30ToHoursValue()
    ensures RoundedValue(HourAnd30(), Part(Hours), HalfUp) == 2
  {
    RoundHalfTie(1.5, 1);
    assert PartValue(HourAnd30(), Part(Hours)) == 1.0;
    FractionHourAnd30OfHours();
    RoundedValueIs(HourAnd30(), Hours, HalfUp, 1.0, 1800.0 / 3600.0, 2);
  }

  /** 1h 30m rounded to hours: {hours: 2}. */
  lemma RoundHourAnd30ToHours()
    ensures Rounded(HourAnd30(), Some(Part(Hours)), HalfUp).value.parts == [(Hours, 2.0)]
  {
    RoundHourAnd30ToHoursValue();
    CascadeHourAnd30ToHours2();
    RoundedIs(HourAnd30(), Hours, HalfUp, 2, [(Hours, 2.0)]);
  }

  /** smaller_parts(hours) of OverfullMinute. */
  lemma SmallerOverfullMinuteThanHours()
    ensures SmallerParts(OverfullMinute(), Part(Hours)) == Success([(Minutes, 29.0), (Seconds, 60.0)])
  {
    var d := OverfullMinute();
    SmallerPartsAt(d, Hours, 1);
    assert d.parts[1..] == [(Minutes, 29.0), (Seconds, 60.0)];
  }

  /** change_cascade(hours: 2) on OverfullMinute. */
  lemma CascadeOverfullMinuteToHours2()
    ensures Cascaded(OverfullMinute(), [(Part(Hours), Some(2.0))]).value.parts == [(Hours, 2.0)]
  {
    var d := OverfullMinute();
    assert Lookup(d.parts, Days) == None;
    assert Lookup(d.parts, Months) == None;
    assert Lookup(d.parts, Years) == None;
    assert SingleSlot(d, Hours, 2.0, Years) == None;
    assert SingleSlot(d, Hours, 2.0, Months) == None;
    assert SingleSlot(d, Hours, 2.0, Days) == None;
    assert SingleSlot(d, Hours, 2.0, Hours) == Some(2.0);
    assert SingleSlot(d, Hours, 2.0, Minutes) == None;
    assert SingleSlot(d, Hours, 2.0, Seconds) == None;
    CascadeIs(d, Hours, 2.0, None, None, None, Some(2.0), None, None, [(Hours, 2.0)]);
  }

  /** smaller_parts_to_fraction_of(hours) on OverfullMinute. */
  lemma FractionOverfullMinuteOfHours()
    ensures SmallerPartsToFractionOf(OverfullMinute(), Part(Hours)) == Success(1800.0 / 3600.0)
  {
    assert InUnits(1800.0, Hours) == 1800.0 / 3600.0;
    TotalOfTwo((Minutes, 29.0), (Seconds, 60.0));
    assert Total([(Minutes, 29.0), (Seconds, 60.0)]) == 1800.0;
    SmallerOverfullMinuteThanHours();
    FractionIs(OverfullMinute(), Hours, [(Minutes, 29.0), (Seconds, 60.0)], 1800.0);
  }

  /** The whole quantity round gives hours on OverfullMinute: 2. */
  lemma RoundOverfullMinuteToHoursValue()
    ensures RoundedValue(OverfullMinute(), Part(Hours), HalfUp) == 2
  {
    RoundHalfTie(1.5, 1);
    assert PartValue(OverfullMinute(), Part(Hours)) == 1.0;
    FractionOverfullMinuteOfHours();
    RoundedValueIs(OverfullMinute(), Hours, HalfUp, 1.0, 1800.0 / 3600.0, 2);
  }

  /** 1h 29m 60s rounded to hours: 1 + 1/2 rounds half up to {hours: 2}. */
  lemma RoundOverfullMinuteToHours()
    ensures Rounded(OverfullMinute(), Some(Part(Hours)), HalfUp).value.parts == [(Hours, 2.0)]
  {
    RoundOverfullMinuteToHoursValue();
    CascadeOverfullMinuteToHours2();
    RoundedIs(OverfullMinute(), Hours, HalfUp, 2, [(Hours, 2.0)]);
  }

  /** change_cascade(hours: 1) on DayHourAnd30. */
  lemma CascadeDayHourAnd30ToHours1()
    ensures Cascaded(DayHourAnd30(), [(Part(Hours), Some(1.0))]).value.parts == [(Days, 1.0), (Hours, 1.0)]
  {
    var d := DayHourAnd30();
    assert Lookup(d.parts, Days) == Some(1.0);
    assert Lookup(d.parts, Months) == None;
    assert Lookup(d.parts, Years) == None;
    assert SingleSlot(d, Hours, 1.0, Years) == None;
    assert SingleSlot(d, Hours, 1.0, Months) == None;
    assert SingleSlot(d, Hours, 1.0, Days) == Some(1.0);
    assert SingleSlot(d, Hours, 1.0, Hours) == Some(1.0);
    assert SingleSlot(d, Hours, 1.0, Minutes) == None;
    assert SingleSlot(d, Hours, 1.0, Seconds) == None;
    CascadeIs(d, Hours, 1.0, None, None, Some(1.0), Some(1.0), None, None, [(Days, 1.0), (Hours, 1.0)]);
  }

  /** 1d 1h 30m truncated to hours: the day is untouched. */
  lemma TruncateDayHourAnd30ToHours()
    ensures Truncate(DayHourAnd30(), Some(Part(Hours))).value.parts == [(Days, 1.0), (Hours, 1.0)]
  {
    assert PartValue(DayHourAnd30(), Part(Hours)) == 1.0;
    assert TruncateTowardZero(1.0) == 1;
    CascadeDayHourAnd30ToHours1();
  }

  /** smaller_parts(hours) of DayHourAnd30. */
  lemma SmallerDayHourAnd30ThanHours()
    ensures SmallerParts(DayHourAnd30(), Part(Hours)) == Success([(Minutes, 30.0)])
  {
    var d := DayHourAnd30();
    SmallerPartsAt(d, Hours, 2);
    assert d.parts[2..] == [(Minutes, 30.0)];
  }

  /** change_cascade(hours: 2) on DayHourAnd30. */
  lemma CascadeDayHourAnd30ToHours2()
    ensures Cascaded(DayHourAnd30(), [(Part(Hours), Some(2.0))]).value.parts == [(Days, 1.0), (Hours, 2.0)]
  {
    var d := DayHourAnd30();
    assert Lookup(d.parts, Days) == Some(1.0);
    assert Lookup(d.parts, Months) == None;
    assert Lookup(d.parts, Years) == None;
    assert SingleSlot(d, Hours, 2.0, Years) == None;
    assert SingleSlot(d, Hours, 2.0, Months) == None;
    assert SingleSlot(d, Hours, 2.0, Days) == Some(1.0);
    assert SingleSlot(d, Hours, 2.0, Hours) == Some(2.0);
    assert SingleSlot(d, Hours, 2.0, Minutes) == None;
    assert SingleSlot(d, Hours, 2.0, Seconds) == None;
    CascadeIs(d, Hours, 2.0, None, None, Some(1.0), Some(2.0), None, None, [(Days, 1.0), (Hours, 2.0)]);
  }

  /** smaller_parts_to_fraction_of(hours) on DayHourAnd30. */
  lemma FractionDayHourAnd30OfHours()
    ensures SmallerPartsToFractionOf(DayHourAnd30(), Part(Hours)) == Success(1800.0 / 3600.0)
  {
    assert InUnits(1800.0, Hours) == 1800.0 / 3600.0;
    TotalOfOne((Minutes, 30.0));
    assert Total([(Minutes, 30.0)]) == 1800.0;
    SmallerDayHourAnd30ThanHours();
    FractionIs(DayHourAnd30(), Hours, [(Minutes, 30.0)], 1800.0);
  }

  /** The whole quantity round gives hours on DayHourAnd30: 2. */
  lemma RoundDayHourAnd30ToHoursValue()
    ensures RoundedValue(DayHourAnd30(), Part(Hours), HalfUp) == 2
  {
    RoundHalfTie(1.5, 1);
    assert PartValue(DayHourAnd30(), Part(Hours)) == 1.0;
    FractionDayHourAnd30OfHours();
    RoundedValueIs(DayHourAnd30(), Hours, HalfUp, 1.0, 1800.0 / 3600.0, 2);
  }

  /** 1d 1h 30m rounded to hours: the day is untouched. */
  lemma RoundDayHourAnd30ToHours()
    ensures Rounded(DayHourAnd30(), Some(Part(Hours)), HalfUp).value.parts == [(Days, 1.0), (Hours, 2.0)]
  {
    RoundDayHourAnd30ToHoursValue();
    CascadeDayHourAnd30ToHours2();
    RoundedIs(DayHourAnd30(), Hours, HalfUp, 2, [(Days, 1.0), (Hours, 2.0)]);
  }

  /** change_cascade(minutes: 1) on MinuteAnd29Point9. */
  lemma CascadeMinuteAnd29Point9ToMinutes1()
    ensures Cascaded(MinuteAnd29Point9(), [(Part(Minutes), Some(1.0))]).value.parts == [(Minutes, 1.0)]
  {
    var d := MinuteAnd29Point9();
    assert Lookup(d.parts, Hours) == None;
    assert Lookup(d.parts, Days) == None;
    assert Lookup(d.parts, Months) == None;
    assert Lookup(d.parts, Years) == None;
    assert SingleSlot(d, Minutes, 1.0, Years) == None;
    assert SingleSlot(d, Minutes, 1.0, Months) == None;
    assert SingleSlot(d, Minutes, 1.0, Days) == None;
    assert SingleSlot(d, Minutes, 1.0, Hours) == None;
    assert SingleSlot(d, Minutes, 1.0, Minutes) == Some(1.0);
    assert SingleSlot(d, Minutes, 1.0, Seconds) == None;
    CascadeIs(d, Minutes, 1.0, None, None, None, None, Some(1.0), None, [(Minutes, 1.0)]);
  }

  /** 1m 29.9s truncated to minutes: {minutes: 1}. */
  lemma TruncateMinuteAnd29Point9ToMinutes()
    ensures Truncate(MinuteAnd29Point9(), Some(Part(Minutes))).value.parts == [(Minutes, 1.0)]
  {
    assert PartValue(MinuteAnd29Point9(), Part(Minutes)) == 1.0;
    assert TruncateTowardZero(1.0) == 1;
    CascadeMinuteAnd29Point9ToMinutes1();
  }

  /** smaller_parts(minutes) of MinuteAnd29Point9. */
  lemma SmallerMinuteAnd29Point9ThanMinutes()
    ensures SmallerParts(MinuteAnd29Point9(), Part(Minutes)) == Success([(Seconds, 29.9)])
  {
    var d := MinuteAnd29Point9();
    SmallerPartsAt(d, Minutes, 1);
    assert d.parts[1..] == [(Seconds, 29.9)];
  }

  /** smaller_parts_to_fraction_of(minutes) on MinuteAnd29Point9. */
  lemma FractionMinuteAnd29Point9OfMinutes()
    ensures SmallerPartsToFractionOf(MinuteAnd29Point9(), Part(Minutes)) == Success(29.9 / 60.0)
  {
    assert InUnits(29.9, Minutes) == 29.9 / 60.0;
    TotalOfOne((Seconds, 29.9));
    assert Total([(Seconds, 29.9)]) == 29.9;
    SmallerMinuteAnd29Point9ThanMinutes();
    FractionIs(MinuteAnd29Point9(), Minutes, [(Seconds, 29.9)], 29.9);
  }

  /** The whole quantity round gives minutes on MinuteAnd29Point9: 1. */
  lemma RoundMinuteAnd29Point9ToMinutesValue()
    ensures RoundedValue(MinuteAnd29Point9(), Part(Minutes), HalfUp) == 1
  {
    RoundHalfUnique(1.0 + 29.9 / 60.0, HalfUp, 1);
    assert PartValue(MinuteAnd29Point9(), Part(Minutes)) == 1.0;
    FractionMinuteAnd29Point9OfMinutes();
    RoundedValueIs(MinuteAnd29Point9(), Minutes, HalfUp, 1.0, 29.9 / 60.0, 1);
  }

  /** 1m 29.9s rounded to minutes: {minutes: 1}. */
  lemma RoundMinuteAnd29Point9ToMinutes()
    ensures Rounded(MinuteAnd29Point9(), Some(Part(Minutes)), HalfUp).value.parts == [(Minutes, 1.0)]
  {
    RoundMinuteAnd29Point9ToMinutesValue();
    CascadeMinuteAnd29Point9ToMinutes1();
    RoundedIs(MinuteAnd29Point9(), Minutes, HalfUp, 1, [(Minutes, 1.0)]);
  }

  /** change_cascade(seconds: 30) on Built1830. */
  lemma CascadeBuilt1830ToSeconds30()
    ensures Cascaded(Built1830(), [(Part(Seconds), Some(30.0))]).value.parts == [(Minutes, 30.0), (Seconds, 30.0)]
  {
    var d := Built1830();
    assert Lookup(d.parts, Hours) == None;
    assert Lookup(d.parts, Days) == None;
    assert Lookup(d.parts, Months) == None;
    assert Lookup(d.parts, Years) == None;
    assert SingleSlot(d, Seconds, 30.0, Years) == None;
    assert SingleSlot(d, Seconds, 30.0, Months) == None;
    assert SingleSlot(d, Seconds, 30.0, Days) == None;
    assert SingleSlot(d, Seconds, 30.0, Hours) == None;
    assert SingleSlot(d, Seconds, 30.0, Minutes) == Some(30.0);
    assert SingleSlot(d, Seconds, 30.0, Seconds) == Some(30.0);
    CascadeIs(d, Seconds, 30.0, None, None, None, None, Some(30.0), Some(30.0), [(Minutes, 30.0), (Seconds, 30.0)]);
  }

  /** Duration.build(1830.5) truncated to seconds: {minutes: 30, seconds: 30}. */
  lemma TruncateBuilt1830ToSeconds()
    ensures Truncate(Built1830(), Some(Part(Seconds))).value.parts == [(Minutes, 30.0), (Seconds, 30.0)]
  {
    assert PartValue(Built1830(), Part(Seconds)) == 30.5;
    assert TruncateTowardZero(30.5) == 30;
    CascadeBuilt1830ToSeconds30();
  }

  /** smaller_parts(seconds) of Built1830. */
  lemma SmallerBuilt1830ThanSeconds()
    ensures SmallerParts(Built1830(), Part(Seconds)) == Success([])
  {
    var d := Built1830();
    SmallerPartsAt(d, Seconds, 2);
    assert d.parts[2..] == [];
  }

  /** change_cascade(seconds: 31) on Built1830. */
  lemma CascadeBuilt1830ToSeconds31()
    ensures Cascaded(Built1830(), [(Part(Seconds), Some(31.0))]).value.parts == [(Minutes, 30.0), (Seconds, 31.0)]
  {
    var d := Built1830();
    assert Lookup(d.parts, Hours) == None;
    assert Lookup(d.parts, Days) == None;
    assert Lookup(d.parts, Months) == None;
    assert Lookup(d.parts, Years) == None;
    assert SingleSlot(d, Seconds, 31.0, Years) == None;
    assert SingleSlot(d, Seconds, 31.0, Months) == None;
    assert SingleSlot(d, Seconds, 31.0, Days) == None;
    assert SingleSlot(d, Seconds, 31.0, Hours) == None;
    assert SingleSlot(d, Seconds, 31.0, Minutes) == Some(30.0);
    assert SingleSlot(d, Seconds, 31.0, Seconds) == Some(31.0);
    CascadeIs(d, Seconds, 31.0, None, None, None, None, Some(30.0), Some(31.0), [(Minutes, 30.0), (Seconds, 31.0)]);
  }

  /** smaller_parts_to_fraction_of(seconds) on Built1830. */
  lemma FractionBuilt1830OfSeconds()
    ensures SmallerPartsToFractionOf(Built1830(), Part(Seconds)) == Success(0.0 / 1.0)
  {
    assert InUnits(0.0, Seconds) == 0.0 / 1.0;
    assert Total([]) == 0.0;
    SmallerBuilt1830ThanSeconds();
    FractionIs(Built1830(), Seconds, [], 0.0);
  }

  /** The whole quantity round gives seconds on Built1830: 31. */
  lemma RoundBuilt1830ToSecondsValue()
    ensures RoundedValue(Built1830(), Part(Seconds), HalfUp) == 31
  {
    RoundHalfTie(30.5, 30);
    assert PartValue(Built1830(), Part(Seconds)) == 30.5;
    FractionBuilt1830OfSeconds();
    RoundedValueIs(Built1830(), Seconds, HalfUp, 30.5, 0.0 / 1.0, 31);
  }

  /** Duration.build(1830.5) rounded to seconds: {minutes: 30, seconds: 31}. */
  lemma RoundBuilt1830ToSeconds()
    ensures Rounded(Built1830(), Some(Part(Seconds)), HalfUp).value.parts == [(Minutes, 30.0), (Seconds, 31.0)]
  {
    RoundBuilt1830ToSecondsValue();
    CascadeBuilt1830ToSeconds31();
    RoundedIs(Built1830(), Seconds, HalfUp, 31, [(Minutes, 30.0), (Seconds, 31.0)]);
  }

  /** change_cascade(minutes: 30) on Built1830. */
  lemma CascadeBuilt1830ToMinutes30()
    ensures Cascaded(Built1830(), [(Part(Minutes), Some(30.0))]).value.parts == [(Minutes, 30.0)]
  {
    var d := Built1830();
    assert Lookup(d.parts, Hours) == None;
    assert Lookup(d.parts, Days) == None;
    assert Lookup(d.parts, Months) == None;
    assert Lookup(d.parts, Years) == None;
    assert SingleSlot(d, Minutes, 30.0, Years) == None;
    assert SingleSlot(d, Minutes, 30.0, Months) == None;
    assert SingleSlot(d, Minutes, 30.0, Days) == None;
    assert SingleSlot(d, Minutes, 30.0, Hours) == None;
    assert SingleSlot(d, Minutes, 30.0, Minutes) == Some(30.0);
    assert SingleSlot(d, Minutes, 30.0, Seconds) == None;
    CascadeIs(d, Minutes, 30.0, None, None, None, None, Some(30.0), None, [(Minutes, 30.0)]);
  }

  /** Duration.build(1830.5) truncated to minutes: {minutes: 30}. */
  lemma TruncateBuilt1830ToMinutes()
    ensures Truncate(Built1830(), Some(Part(Minutes))).value.parts == [(Minutes, 30.0)]
  {
    assert PartValue(Built1830(), Part(Minutes)) == 30.0;
    assert TruncateTowardZero(30.0) == 30;
    CascadeBuilt1830ToMinutes30();
  }

  /** smaller_parts(minutes) of Built1830. */
  lemma SmallerBuilt1830ThanMinutes()
    ensures SmallerParts(Built1830(), Part(Minutes)) == Success([(Seconds, 30.5)])
  {
    var d := Built1830();
    SmallerPartsAt(d, Minutes, 1);
    assert d.parts[1..] == [(Seconds, 30.5)];
  }

  /** change_cascade(minutes: 31) on Built1830. */
  lemma CascadeBuilt1830ToMinutes31()
    ensures Cascaded(Built1830(), [(Part(Minutes), Some(31.0))]).value.parts == [(Minutes, 31.0)]
  {
    var d := Built1830();
    assert Lookup(d.parts, Hours) == None;
    assert Lookup(d.parts, Days) == None;
    assert Lookup(d.parts, Months) == None;
    assert Lookup(d.parts, Years) == None;
    assert SingleSlot(d, Minutes, 31.0, Years) == None;
    assert SingleSlot(d, Minutes, 31.0, Months) == None;
    assert SingleSlot(d, Minutes, 31.0, Days) == None;
    assert SingleSlot(d, Minutes, 31.0, Hours) == None;
    assert SingleSlot(d, Minutes, 31.0, Minutes) == Some(31.0);
    assert SingleSlot(d, Minutes, 31.0, Seconds) == None;
    CascadeIs(d, Minutes, 31.0, None, None, None, None, Some(31.0), None, [(Minutes, 31.0)]);
  }

  /** smaller_parts_to_fraction_of(minutes) on Built1830. */
  lemma FractionBuilt1830OfMinutes()
    ensures SmallerPartsToFractionOf(Built1830(), Part(Minutes)) == Success(30.5 / 60.0)
  {
    assert InUnits(30.5, Minutes) == 30.5 / 60.0;
    TotalOfOne((Seconds, 30.5));
    assert Total([(Seconds, 30.5)]) == 30.5;
    SmallerBuilt1830ThanMinutes();
    FractionIs(Built1830(), Minutes, [(Seconds, 30.5)], 30.5);
  }

  /** The whole quantity round gives minutes on Built1830: 31. */
  lemma RoundBuilt1830ToMinutesValue()
    ensures RoundedValue(Built1830(), Part(Minutes), HalfUp) == 31
  {
    RoundHalfUnique(30.0 + 30.5 / 60.0, HalfUp, 31);
    assert PartValue(Built1830(), Part(Minutes)) == 30.0;
    FractionBuilt1830OfMinutes();
    RoundedValueIs(Built1830(), Minutes, HalfUp, 30.0, 30.5 / 60.0, 31);
  }

  /** Duration.build(1830.5) rounded to minutes: {minutes: 31}. */
  lemma RoundBuilt1830ToMinutes()
    ensures Rounded(Built1830(), Some(Part(Minutes)), HalfUp).value.parts == [(Minutes, 31.0)]
  {
    RoundBuilt1830ToMinutesValue();
    CascadeBuilt1830ToMinutes31();
    RoundedIs(Built1830(), Minutes, HalfUp, 31, [(Minutes, 31.0)]);
  }

  /** change_cascade(hours: 0) on Seconds1830. */
  lemma CascadeSeconds1830ToHours0()
    ensures Cascaded(Seconds1830(), [(Part(Hours), Some(0.0))]).value.parts == []
  {
    var d := Seconds1830();
    assert Lookup(d.parts, Days) == None;
    assert Lookup(d.parts, Months) == None;
    assert Lookup(d.parts, Years) == None;
    assert SingleSlot(d, Hours, 0.0, Years) == None;
    assert SingleSlot(d, Hours, 0.0, Months) == None;
    assert SingleSlot(d, Hours, 0.0, Days) == None;
    assert SingleSlot(d, Hours, 0.0, Hours) == None;
    assert SingleSlot(d, Hours, 0.0, Minutes) == None;
    assert SingleSlot(d, Hours, 0.0, Seconds) == None;
    CascadeIs(d, Hours, 0.0, None, None, None, None, None, None, []);
  }

  /** 1830.5 seconds truncated to hours: no parts. */
  lemma TruncateSeconds1830ToHours()
    ensures Truncate(Seconds1830(), Some(Part(Hours))).value.parts == []
  {
    assert PartValue(Seconds1830(), Part(Hours)) == 0.0;
    assert TruncateTowardZero(0.0) == 0;
    CascadeSeconds1830ToHours0();
  }

  /** smaller_parts(hours) of Seconds1830. */
  lemma SmallerSeconds1830ThanHours()
    ensures SmallerParts(Seconds1830(), Part(Hours)) == Success([(Seconds, 1830.5)])
  {
    var d := Seconds1830();
    SmallerPartsAt(d, Hours, 0);
    assert d.parts[0..] == [(Seconds, 1830.5)];
  }

  /** change_cascade(hours: 1) on Seconds1830. */
  lemma CascadeSeconds1830ToHours1()
    ensures Cascaded(Seconds1830(), [(Part(Hours), Some(1.0))]).value.parts == [(Hours, 1.0)]
  {
    var d := Seconds1830();
    assert Lookup(d.parts, Days) == None;
    assert Lookup(d.parts, Months) == None;
    assert Lookup(d.parts, Years) == None;
    assert SingleSlot(d, Hours, 1.0, Years) == None;
    assert SingleSlot(d, Hours, 1.0, Months) == None;
    assert SingleSlot(d, Hours, 1.0, Days) == None;
    assert SingleSlot(d, Hours, 1.0, Hours) == Some(1.0);
    assert SingleSlot(d, Hours, 1.0, Minutes) == None;
    assert SingleSlot(d, Hours, 1.0, Seconds) == None;
    CascadeIs(d, Hours, 1.0, None, None, None, Some(1.0), None, None, [(Hours, 1.0)]);
  }

  /** smaller_parts_to_fraction_of(hours) on Seconds1830. */
  lemma FractionSeconds1830OfHours()
    ensures SmallerPartsToFractionOf(Seconds1830(), Part(Hours)) == Success(1830.5 / 3600.0)
  {
    assert InUnits(1830.5, Hours) == 1830.5 / 3600.0;
    TotalOfOne((Seconds, 1830.5));
    assert Total([(Seconds, 1830.5)]) == 1830.5;
    SmallerSeconds1830ThanHours();
    FractionIs(Seconds1830(), Hours, [(Seconds, 1830.5)], 1830.5);
  }

  /** The whole quantity round gives hours on Seconds1830: 1. */
  lemma RoundSeconds1830ToHoursValue()
    ensures RoundedValue(Seconds1830(), Part(Hours), HalfUp) == 1
  {
    RoundHalfUnique(0.0 + 1830.5 / 3600.0, HalfUp, 1);
    assert PartValue(Seconds1830(), Part(Hours)) == 0.0;
    FractionSeconds1830OfHours();
    RoundedValueIs(Seconds1830(), Hours, HalfUp, 0.0, 1830.5 / 3600.0, 1);
  }

  /** 1830.5 seconds rounded to hours: {hours: 1}. */
  lemma RoundSeconds1830ToHours()
    ensures Rounded(Seconds1830(), Some(Part(Hours)), HalfUp).value.parts == [(Hours, 1.0)]
  {
    RoundSeconds1830ToHoursValue();
    CascadeSeconds1830ToHours1();
    RoundedIs(Seconds1830(), Hours, HalfUp, 1, [(Hours, 1.0)]);
  }

  /** change_cascade(minutes: 0) on Seconds1830. */
  lemma CascadeSeconds1830ToMinutes0()
    ensures Cascaded(Seconds1830(), [(Part(Minutes), Some(0.0))]).value.parts == []
  {
    var d := Seconds1830();
    assert Lookup(d.parts, Hours) == None;
    assert Lookup(d.parts, Days) == None;
    assert Lookup(d.parts, Months) == None;
    assert Lookup(d.parts, Years) == None;
    assert SingleSlot(d, Minutes, 0.0, Years) == None;
    assert SingleSlot(d, Minutes, 0.0, Months) == None;
    assert SingleSlot(d, Minutes, 0.0, Days) == None;
    assert SingleSlot(d, Minutes, 0.0, Hours) == None;
    assert SingleSlot(d, Minutes, 0.0, Minutes) == None;
    assert SingleSlot(d, Minutes, 0.0, Seconds) == None;
    CascadeIs(d, Minutes, 0.0, None, None, None, None, None, None, []);
  }

  /** 1830.5 seconds truncated to minutes: no parts. */
  lemma TruncateSeconds1830ToMinutes()
    ensures Truncate(Seconds1830(), Some(Part(Minutes))).value.parts == []
  {
    assert PartValue(Seconds1830(), Part(Minutes)) == 0.0;
    assert TruncateTowardZero(0.0) == 0;
    CascadeSeconds1830ToMinutes0();
  }

  /** smaller_parts(minutes) of Seconds1830. */
  lemma SmallerSeconds1830ThanMinutes()
    ensures SmallerParts(Seconds1830(), Part(Minutes)) == Success([(Seconds, 1830.5)])
  {
    var d := Seconds1830();
    SmallerPartsAt(d, Minutes, 0);
    assert d.parts[0..] == [(Seconds, 1830.5)];
  }

  /** change_cascade(minutes: 31) on Seconds1830. */
  lemma CascadeSeconds1830ToMinutes31()
    ensures Cascaded(Seconds1830(), [(Part(Minutes), Some(31.0))]).value.parts == [(Minutes, 31.0)]
  {
    var d := Seconds1830();
    assert Lookup(d.parts, Hours) == None;
    assert Lookup(d.parts, Days) == None;
    assert Lookup(d.parts, Months) == None;
    assert Lookup(d.parts, Years) == None;
    assert SingleSlot(d, Minutes, 31.0, Years) == None;
    assert SingleSlot(d, Minutes, 31.0, Months) == None;
    assert SingleSlot(d, Minutes, 31.0, Days) == None;
    assert SingleSlot(d, Minutes, 31.0, Hours) == None;
    assert SingleSlot(d, Minutes, 31.0, Minutes) == Some(31.0);
    assert SingleSlot(d, Minutes, 31.0, Seconds) == None;
    CascadeIs(d, Minutes, 31.0, None, None, None, None, Some(31.0), None, [(Minutes, 31.0)]);
  }

  /** smaller_parts_to_fraction_of(minutes) on Seconds1830. */
  lemma FractionSeconds1830OfMinutes()
    ensures SmallerPartsToFractionOf(Seconds1830(), Part(Minutes)) == Success(1830.5 / 60.0)
  {
    assert InUnits(1830.5, Minutes) == 1830.5 / 60.0;
    TotalOfOne((Seconds, 1830.5));
    assert Total([(Seconds, 1830.5)]) == 1830.5;
    SmallerSeconds1830ThanMinutes();
    FractionIs(Seconds1830(), Minutes, [(Seconds, 1830.5)], 1830.5);
  }

  /** The whole quantity round gives minutes on Seconds1830: 31. */
  lemma RoundSeconds1830ToMinutesValue()
    ensures RoundedValue(Seconds1830(), Part(Minutes), HalfUp) == 31
  {
    RoundHalfUnique(0.0 + 1830.5 / 60.0, HalfUp, 31);
    assert PartValue(Seconds1830(), Part(Minutes)) == 0.0;
    FractionSeconds1830OfMinutes();
    RoundedValueIs(Seconds1830(), Minutes, HalfUp, 0.0, 1830.5 / 60.0, 31);
  }

  /** 1830.5 seconds rounded to minutes: {minutes: 31}. */
  lemma RoundSeconds1830ToMinutes()
    ensures Rounded(Seconds1830(), Some(Part(Minutes)), HalfUp).value.parts == [(Minutes, 31.0)]
  {
    RoundSeconds1830ToMinutesValue();
    CascadeSeconds1830ToMinutes31();
    RoundedIs(Seconds1830(), Minutes, HalfUp, 31, [(Minutes, 31.0)]);
  }

  /** smaller_parts(seconds) of Seconds1830. */
  lemma SmallerSeconds1830ThanSeconds()
    ensures SmallerParts(Seconds1830(), Part(Seconds)) == Success([])
  {
    var d := Seconds1830();
    SmallerPartsAt(d, Seconds, 1);
    assert d.parts[1..] == [];
  }

  /** change_cascade(seconds: 1831) on Seconds1830. */
  lemma CascadeSeconds1830ToSeconds1831()
    ensures Cascaded(Seconds1830(), [(Part(Seconds), Some(1831.0))]).value.parts == [(Seconds, 1831.0)]
  {
    var d := Seconds1830();
    assert Lookup(d.parts, Hours) == None;
    assert Lookup(d.parts, Days) == None;
    assert Lookup(d.parts, Months) == None;
    assert Lookup(d.parts, Years) == None;
    assert SingleSlot(d, Seconds, 1831.0, Years) == None;
    assert SingleSlot(d, Seconds, 1831.0, Months) == None;
    assert SingleSlot(d, Seconds, 1831.0, Days) == None;
    assert SingleSlot(d, Seconds, 1831.0, Hours) == None;
    assert SingleSlot(d, Seconds, 1831.0, Minutes) == None;
    assert SingleSlot(d, Seconds, 1831.0, Seconds) == Some(1831.0);
    CascadeIs(d, Seconds, 1831.0, None, None, None, None, None, Some(1831.0), [(Seconds, 1831.0)]);
  }

  /** smaller_parts_to_fraction_of(seconds) on Seconds1830. */
  lemma FractionSeconds1830OfSeconds()
    ensures SmallerPartsToFractionOf(Seconds1830(), Part(Seconds)) == Success(0.0 / 1.0)
  {
    assert InUnits(0.0, Seconds) == 0.0 / 1.0;
    assert Total([]) == 0.0;
    SmallerSeconds1830ThanSeconds();
    FractionIs(Seconds1830(), Seconds, [], 0.0);
  }

  /** The whole quantity round gives seconds on Seconds1830: 1831. */
  lemma RoundSeconds1830ToSecondsValue()
    ensures RoundedValue(Seconds1830(), Part(Seconds), HalfUp) == 1831
  {
    RoundHalfTie(1830.5, 1830);
    assert PartValue(Seconds1830(), Part(Seconds)) == 1830.5;
    FractionSeconds1830OfSeconds();
    RoundedValueIs(Seconds1830(), Seconds, HalfUp, 1830.5, 0.0 / 1.0, 1831);
  }

  /** 1830.5 seconds rounded to seconds: {seconds: 1831}. */
  lemma RoundSeconds1830ToSeconds()
    ensures Rounded(Seconds1830(), Some(Part(Seconds)), HalfUp).value.parts == [(Seconds, 1831.0)]
  {
    RoundSeconds1830ToSecondsValue();
    CascadeSeconds1830ToSeconds1831();
    RoundedIs(Seconds1830(), Seconds, HalfUp, 1831, [(Seconds, 1831.0)]);
  }
}
