# Duration change, round and truncate

A model in Dafny of the truncate extension to `ActiveSupport::Duration`. The extension
adds these methods to a duration:
- building a duration from a hash of parts (`from_parts`);
- the unit lookups `units_largest_first`, `next_smaller_unit` and `smaller_units`;
- re-decomposing a duration (`normalize`);
- overwriting some parts (`change`);
- overwriting some parts and resetting every smaller one (`change_cascade`);
- slicing off the parts below a unit (`smaller_parts`) and expressing them as a fraction
  of that unit (`smaller_parts_to_fraction_of`);
- reading the last part (`smallest_part`, `smallest_unit`);
- reducing a duration to the precision of one unit (`round`, `truncate`).

A duration is a `Duration(value, parts)`: the length in seconds and the parts in the
order a Ruby Hash keeps them. A caller's hash is a sequence of key and value pairs,
where a key is a unit, `:nsec`, `:usec` or any other symbol, and a value may be nil.
Quantities are exact `real`s. Each `ArgumentError` or `TypeError` the Ruby code raises
is a `Failure` of a `Result`.

Modules, one per concern of the Ruby code:
- `Units` (units.dfy): the unit table, its order and the unit lookups.
- `PartsAlgebra` (parts.dfy): the Hash operations on parts. These are
  `compact.reject(&:zero?)`, `calculate_total_seconds`, `merge`, `slice` and `[]`.
- `Decomposition` (build.dfy): `Duration.build`. It is a greedy decomposition, and
  `BuildCharacterized` proves it is the one canonical form of a length.
- `Durations` (duration.dfy): `from_parts`, `normalize`, `change`, `smaller_parts`,
  `smaller_parts_to_fraction_of`, `smallest_part` and `smallest_unit`.
- `Cascade` (cascade.dfy): `change_cascade`. The function `Cascaded` specifies it. The
  method `ChangeCascade` follows the Ruby code step by step: it fills the six slots
  while it threads the `reset` flag, then applies `nsec` to the seconds.
- `Precision` (precision.dfy): `round` (the method `Round`, specified by the function
  `Rounded`) and `truncate`.
- `Examples` and `RoundingExamples`: the scenarios of
  spec/active_support/duration/truncate_spec.rb, each proved on the model.

`Duration.build`, `PARTS_IN_SECONDS` and `calculate_total_seconds` belong to
ActiveSupport itself, and their source is not part of this model. `Decomposition`
specifies `build` as a greedy pass over years, months, weeks, days, hours and minutes.
The pass keeps the remainder in seconds, and each part of a negative length is negated.
The factors are 1, 60, 3600, 86400, 604800, 2629746 and 31556952 seconds.

## Model

| member | source | states |
|---|---|---|
| Units.Factor | lib/active_support/duration/truncate.rb:168 | each unit is at least one second long |
| Units.Conversions | lib/active_support/duration/truncate.rb:167-170 | a quantity in seconds is the quantity times the unit's factor, and dividing by the factor undoes it |
| Units.Rank | lib/active_support/duration/truncate.rb:23-26 | a unit's position in the largest-first order is below 7 |
| Units.UnitsLargestFirst | lib/active_support/duration/truncate.rb:23-26 | all seven units, each at its rank, with strictly decreasing factors |
| Units.UnitAt | lib/active_support/duration/truncate.rb:23-26 | the unit at a position has that rank |
| Units.RankOrdersFactors | lib/active_support/duration/truncate.rb:24-25 | rank equality is unit equality, and a lower rank is exactly a larger factor |
| Units.FactorAtMonotone | lib/active_support/duration/truncate.rb:24-25 | factors never grow along the largest-first order |
| Units.NextSmallerUnit | lib/active_support/duration/truncate.rb:28-31 | fails with UnknownUnit exactly for a non-unit; nil exactly for seconds; otherwise the unit one rank smaller |
| Units.SmallerUnits | lib/active_support/duration/truncate.rb:33-37 | fails with UnknownUnit exactly for a non-unit; otherwise exactly the units of larger rank, consecutive and largest first |
| PartsAlgebra.TotalAppend | lib/active_support/duration/truncate.rb:13 | the total of a concatenation is the sum of the totals |
| PartsAlgebra.TotalNonNegative | lib/active_support/duration/truncate.rb:13 | positive quantities give a non-negative total, positive when there is a part |
| PartsAlgebra.LookupIsMember | lib/active_support/duration/truncate.rb:141 | in a hash, parts[u] is q exactly when (u, q) is an entry, and nil exactly when no entry has unit u |
| PartsAlgebra.HasKeyAt | lib/active_support/duration/truncate.rb:90-94 | key? holds exactly when some pair has the key |
| PartsAlgebra.NonZero | lib/active_support/duration/truncate.rb:112 | an entry survives the reject exactly when it is non-nil and non-zero, and then unchanged |
| PartsAlgebra.CompactMembers | lib/active_support/duration/truncate.rb:12 | compact-and-reject keeps exactly the non-nil, non-zero pairs |
| PartsAlgebra.CompactAppend | lib/active_support/duration/truncate.rb:12 | compact-and-reject distributes over concatenation, so order is kept |
| PartsAlgebra.AsParts | lib/active_support/duration/truncate.rb:13 | succeeds exactly when every key is a unit, keeping the pairs; otherwise fails naming a non-unit key |
| PartsAlgebra.Overlay | lib/active_support/duration/truncate.rb:55 | merge overwrites each existing key with its new value in place and leaves the other keys alone |
| PartsAlgebra.NewEntriesMembers | lib/active_support/duration/truncate.rb:55 | merge appends exactly the pairs whose key the base lacks |
| PartsAlgebra.MergeDistinct | lib/active_support/duration/truncate.rb:55 | merging two hashes gives a hash |
| PartsAlgebra.GetMerge | lib/active_support/duration/truncate.rb:55 | after merge, a key's value is the change's if the change has the key, else the base's |
| PartsAlgebra.SliceMembers | lib/active_support/duration/truncate.rb:181 | slice holds a pair exactly when its unit is asked for and present with that quantity |
| PartsAlgebra.SliceLargestFirst | lib/active_support/duration/truncate.rb:181 | slicing by units in largest-first order gives parts in that order |
| PartsAlgebra.LargestFirstUnique | lib/active_support/duration/truncate.rb:23-26 | two largest-first part lists with the same entries are equal |
| PartsAlgebra.PartsByLookup | lib/active_support/duration/truncate.rb:23-26 | two largest-first part lists that agree on every unit are equal |
| Decomposition.Quotient | lib/active_support/duration/truncate.rb:48 | the whole number of units of a length, bracketed by consecutive multiples |
| Decomposition.Remainder | lib/active_support/duration/truncate.rb:48 | the rest after the whole units, in [0, factor) |
| Decomposition.QuotientUnique | lib/active_support/duration/truncate.rb:48 | the bracketing multiples determine the quotient |
| Decomposition.Negate | lib/active_support/duration/truncate.rb:48 | every quantity negated, units and order kept |
| Decomposition.TotalNegate | lib/active_support/duration/truncate.rb:48 | negating every part negates the total |
| Decomposition.BuildTotal | lib/active_support/duration/truncate.rb:48 | build's parts add up to the length it was given |
| Decomposition.GreedyCanonical | lib/active_support/duration/truncate.rb:48 | the greedy decomposition is in canonical form |
| Decomposition.GreedyUnique | lib/active_support/duration/truncate.rb:48 | a canonical part list is what the greedy decomposition gives for its total |
| Decomposition.BuildCharacterized | lib/active_support/duration/truncate.rb:47-49 | for a length of 0 or more, build gives p exactly when p is canonical and totals to that length |
| Decomposition.HeadQuotient | lib/active_support/duration/truncate.rb:48 | the first part of a canonical list is the whole number of its unit in the total, and the rest is the remainder |
| Decomposition.TailBelowHead | lib/active_support/duration/truncate.rb:48 | what follows a part in a canonical list is shorter than one of that part's unit |
| Durations.FromParts | lib/active_support/duration/truncate.rb:11-19 | succeeds exactly when every surviving key is a unit, and its value is then the total of its parts |
| Durations.FromPartsOutcome | lib/active_support/duration/truncate.rb:11-19 | a failure names a non-unit key with a non-zero value; without normalize the parts are the compacted hash; with normalize, build of the value |
| Durations.FromPartsVerbatim | lib/active_support/duration/truncate.rb:12-13 | without normalize, a hash that compacts to p gives exactly Duration(total of p, p) |
| Durations.FromPartsMembers | lib/active_support/duration/truncate.rb:12 | without normalize, (u, q) is a part exactly when the input has u => q with q non-zero |
| Durations.FromPartsLookup | lib/active_support/duration/truncate.rb:12 | without normalize, parts[u] is the input's value for u with nil and zero dropped |
| Durations.FromPartsOrder | lib/active_support/duration/truncate.rb:12 | without normalize, input given largest unit first stays largest first |
| Durations.FromPartsNormalizes | lib/active_support/duration/truncate.rb:14-15 | from_parts with normalize is from_parts without it, then normalize, failing in the same cases |
| Durations.Normalize | lib/active_support/duration/truncate.rb:47-49 | keeps the length; the parts total to it and are canonical (negated for a negative length); a canonical duration is unchanged |
| Durations.NormalizeIdempotent | lib/active_support/duration/truncate.rb:47-49 | normalizing twice is normalizing once |
| Durations.Change | lib/active_support/duration/truncate.rb:53-58 | succeeds exactly when every changed key with a non-zero value is a unit, and the value is then the total of the new parts |
| Durations.ChangeLookup | lib/active_support/duration/truncate.rb:53-58 | each unit takes the changed value if given, else keeps its old one; a zero or nil value removes it |
| Durations.ChangeLayout | lib/active_support/duration/truncate.rb:54-55 | the new parts are the old ones overwritten in place, then the new keys appended |
| Durations.ChangeInPlace | lib/active_support/duration/truncate.rb:53-58 | changing existing units to non-zero values keeps every position and unit, with nothing reset |
| Durations.ChangeAppends | lib/active_support/duration/truncate.rb:55 | changing a unit the duration lacks appends it after the last part, the rest untouched |
| Durations.SmallerParts | lib/active_support/duration/truncate.rb:180-182 | fails with UnknownUnit exactly for a non-unit; otherwise exactly the present entries of smaller units, largest first |
| Durations.SmallerPartsAt | lib/active_support/duration/truncate.rb:180-182 | for largest-first parts, the smaller parts are the suffix after the last entry not smaller than the unit |
| Durations.SmallerPartsToFractionOf | lib/active_support/duration/truncate.rb:161-173 | fails with UnknownUnit exactly for a non-unit key |
| Durations.FractionValue | lib/active_support/duration/truncate.rb:166-170 | the fraction is the smaller parts' total in seconds divided by the unit's factor |
| Durations.FractionOfUnit | lib/active_support/duration/truncate.rb:166-170 | the fraction times the unit's factor is the smaller parts' total |
| Durations.FractionBelowOne | lib/active_support/duration/truncate.rb:143 | for canonical parts the fraction lies in [0, 1) |
| Durations.SmallestPart | lib/active_support/duration/truncate.rb:184-186 | the last entry of the parts, of the smallest unit when they are largest first |
| Durations.SmallestUnit | lib/active_support/duration/truncate.rb:188-190 | the unit of the last entry, present in the parts, the smallest when they are largest first |
| Cascade.SlotUnits | lib/active_support/duration/truncate.rb:90-95 | the six slots of change_cascade are every unit except weeks |
| Cascade.FirstInvalidKey | lib/active_support/duration/truncate.rb:86 | none exactly when every key is a unit, nsec or usec; otherwise the first other key |
| Cascade.Fetch | lib/active_support/duration/truncate.rb:90-95 | the option's value when the key is present, even when nil, else the default |
| Cascade.ResetChain | lib/active_support/duration/truncate.rb:90-94 | the reset flag before each slot is whether some larger slot's key was given |
| Cascade.Slots | lib/active_support/duration/truncate.rb:88-95 | six slots, each the override, else 0 below an overridden unit, else the old part |
| Cascade.FetchSlots | lib/active_support/duration/truncate.rb:88-95 | the six fetches with the reset flag fill exactly the slots Slots specifies |
| Cascade.SubsecondShift | lib/active_support/duration/truncate.rb:97-109 | nothing without nsec; both nsec and usec fail; nsec alone fails as out of range exactly when nsec is 10^9 or more |
| Cascade.ShiftFraction | lib/active_support/duration/truncate.rb:99-108 | an accepted nsec adds nsec / 10^9 seconds, less than one second |
| Cascade.ChangeCascade | lib/active_support/duration/truncate.rb:85-115 | the step-by-step change_cascade computes exactly the Cascaded specification |
| Cascade.Cascaded | lib/active_support/duration/truncate.rb:111-114 | a result's value is the total of its parts |
| Cascade.CascadeOutcome | lib/active_support/duration/truncate.rb:85-115 | fails with the first invalid key exactly when there is one; then the nsec errors; nil seconds with nsec fails; succeeds in every other case |
| Cascade.CascadeLookup | lib/active_support/duration/truncate.rb:88-114 | each unit of the result is its slot (with the nsec shift on seconds) with zero dropped, and weeks is always absent |
| Cascade.CascadeEffect | lib/active_support/duration/truncate.rb:90-95 | an overridden unit takes its override; a unit below an override is dropped; any other unit keeps its old value |
| Cascade.CascadeShape | lib/active_support/duration/truncate.rb:111-114 | the result is largest first and holds no weeks |
| Cascade.CascadeCongruence | lib/active_support/duration/truncate.rb:85-115 | option hashes that agree on validity, nsec, usec and the six units give the same result |
| Cascade.WeeksIgnored | lib/active_support/duration/truncate.rb:90-95 | a weeks override changes nothing |
| Cascade.UsecAloneIgnored | lib/active_support/duration/truncate.rb:97-104 | a usec option without nsec changes nothing |
| Precision.RoundHalf | lib/active_support/duration/truncate.rb:147 | the rounded integer is within one half of the quantity |
| Precision.RoundHalfTies | lib/active_support/duration/truncate.rb:147 | off a tie strictly nearest; at a tie, half: :up goes away from zero, :down toward zero, :even to an even integer |
| Precision.RoundHalfNearest | lib/active_support/duration/truncate.rb:147 | no integer is nearer than the rounded one |
| Precision.RoundHalfUnique | lib/active_support/duration/truncate.rb:147 | an integer less than one half away is the rounded one |
| Precision.TruncateTowardZero | lib/active_support/duration/truncate.rb:202 | the integer part toward zero, bracketing the quantity |
| Precision.PrecisionKey | lib/active_support/duration/truncate.rb:138 | the given precision, or by default the unit of the last part |
| Precision.PartValue | lib/active_support/duration/truncate.rb:141 | parts[precision] when present, else 0 |
| Precision.RoundedValue | lib/active_support/duration/truncate.rb:141-147 | the new quantity is within one half of the part plus the smaller parts' fraction |
| Precision.Rounded | lib/active_support/duration/truncate.rb:138-152 | fails with UnknownUnit exactly when the precision is not a unit; a result's value is its total |
| Precision.Round | lib/active_support/duration/truncate.rb:138-152 | the step-by-step round computes exactly the Rounded specification |
| Precision.Truncate | lib/active_support/duration/truncate.rb:196-206 | succeeds for a unit precision; `:nsec` or `:usec` is change_cascade of that key to 0; another symbol fails as an invalid change_cascade key |
| Precision.SingleCascade | lib/active_support/duration/truncate.rb:149-151 | change_cascade to one unit succeeds, is largest first, and leaves each unit what its slot holds |
| Precision.SingleCascadeParts | lib/active_support/duration/truncate.rb:149-151 | change_cascade to one unit gives exactly the retained slots, largest first |
| Precision.RoundedAt | lib/active_support/duration/truncate.rb:141-151 | round to u is change_cascade of u to round(part + total of the suffix below u / factor) |
| Precision.RoundEffect | lib/active_support/duration/truncate.rb:138-152 | round to a unit: smaller units and weeks are dropped, the unit takes the rounded quantity, larger units are untouched |
| Precision.TruncateEffect | lib/active_support/duration/truncate.rb:196-206 | truncate to a unit: smaller units and weeks are dropped, the unit takes its own part truncated, larger units are untouched |
| Precision.TruncateIgnoresSmaller | lib/active_support/duration/truncate.rb:201-202 | durations that agree down to the unit truncate alike, whatever their smaller parts |
| Precision.WeeksPrecision | lib/active_support/duration/truncate.rb:149-151 | round or truncate to weeks is a change_cascade with no override |
| Precision.RoundCarriesAtMostOne | lib/active_support/duration/truncate.rb:143 | on canonical parts, rounding above seconds adds 1 when the fraction is at least one half, else 0 |
| Precision.RoundIsTruncateWhenWhole | lib/active_support/duration/truncate.rb:141-147 | with a whole part and nothing below it, round and truncate agree |
| Examples.FromPartsAsGiven | spec/active_support/duration/truncate_spec.rb:11-13 | from_parts({minutes: 30.5, seconds: 30.5}, normalize: false) keeps both parts verbatim, 1860.5 seconds long |
| Examples.FromPartsNormalized | spec/active_support/duration/truncate_spec.rb:3-5 | from_parts({minutes: 30.5, seconds: 30.5}) has parts {minutes: 31, seconds: 0.5} |
| Examples.FromPartsOverfull | spec/active_support/duration/truncate_spec.rb:48-49 | from_parts({hours: 1, minutes: 29, seconds: 60}, normalize: false) keeps the 60 seconds |
| Examples.FromPartsRefusesOtherKey | lib/active_support/duration/truncate.rb:12-13 | a key that is not a unit makes from_parts fail |
| Examples.NormalizeFractionalMinutes | spec/active_support/duration/truncate_spec.rb:70-73 | {minutes: 1.4, seconds: 25} normalizes to {minutes: 1, seconds: 49} |
| Examples.NormalizeSixtyOneSeconds | spec/active_support/duration/truncate_spec.rb:80-81 | 61 seconds normalize to {minutes: 1, seconds: 1} |
| Examples.NormalizeSeconds1830 | spec/active_support/duration/truncate_spec.rb:87-88 | 1830.5 seconds normalize to {minutes: 30, seconds: 30.5}, the parts of build(1830.5) |
| Examples.NormalizeOverfullMinute | spec/active_support/duration/truncate_spec.rb:95 | {hours: 1, minutes: 29, seconds: 60} normalizes to {hours: 1, minutes: 30} |
| Examples.NormalizeEightyNineMinutes | spec/active_support/duration/truncate_spec.rb:124 | {hours: 1, minutes: 89} normalizes to {hours: 2, minutes: 29} |
| Examples.NormalizeNinetyMinutes | spec/active_support/duration/truncate_spec.rb:133 | {hours: 1, minutes: 90} normalizes to {hours: 2, minutes: 30} |
| Examples.ChangeHours | spec/active_support/duration/truncate_spec.rb:26 | change(hours: 12) of 9h 10m 40s gives {hours: 12, minutes: 10, seconds: 40}, nothing reset |
| Examples.ChangeMinutes | spec/active_support/duration/truncate_spec.rb:37-38 | change(minutes: 1) of build(1830.5) gives {minutes: 1, seconds: 30.5} |
| Examples.ChangeToSameValue | spec/active_support/duration/truncate_spec.rb:50 | change(hours: 1) of 1h 29m 60s gives the same duration back |
| Examples.ChangeAddsUnitAtEnd | lib/active_support/duration/truncate.rb:53-58 | change(days: 2) of 9h 10m 40s appends the new days part after the seconds |
| Examples.CascadeHours | spec/active_support/duration/truncate_spec.rb:27 | change_cascade(hours: 12) of 9h 10m 40s gives {hours: 12} |
| Examples.CascadeMinutes | spec/active_support/duration/truncate_spec.rb:28 | change_cascade(minutes: 5) of 9h 10m 40s gives {hours: 9, minutes: 5} |
| Examples.CascadeBuiltMinutes | spec/active_support/duration/truncate_spec.rb:42-43 | change_cascade(minutes: 1) of build(1830.5) gives {minutes: 1} |
| Examples.CascadeOverfullHours | spec/active_support/duration/truncate_spec.rb:51 | change_cascade(hours: 1) of 1h 29m 60s gives {hours: 1} |
| Examples.CascadeRefusesOtherKey | lib/active_support/duration/truncate.rb:86 | change_cascade with a key outside the units, nsec and usec fails with that key |
| Examples.CascadeRefusesNsecWithUsec | lib/active_support/duration/truncate.rb:98 | change_cascade with both nsec and usec fails |
| Examples.CascadeRefusesFullSecondOfNsec | lib/active_support/duration/truncate.rb:106 | change_cascade with nsec: 10^9 fails as out of range |
| Examples.CascadeNsecWithoutSeconds | lib/active_support/duration/truncate.rb:108 | nsec on a duration left with no seconds slot fails |
| Examples.SmallerThanHours | spec/active_support/duration/truncate_spec.rb:96 | smaller_parts(:hours) of 1h 29m 60s is {minutes: 29, seconds: 60} |
| Examples.SmallerThanMinutes | spec/active_support/duration/truncate_spec.rb:97 | smaller_parts(:minutes) of 1h 29m 60s is {seconds: 60} |
| Examples.SmallerThanSeconds | spec/active_support/duration/truncate_spec.rb:98 | smaller_parts(:seconds) of 1h 29m 60s is empty |
| Examples.FractionOfHour | lib/active_support/duration/truncate.rb:157-159 | the parts of 1h 29m 60s below hours are half an hour |
| RoundingExamples.TruncateTwoAndAHalfSecondsToSeconds | spec/active_support/duration/truncate_spec.rb:105 | 2.5 seconds truncated to seconds: {seconds: 2} |
| RoundingExamples.RoundTwoAndAHalfSecondsToSeconds | spec/active_support/duration/truncate_spec.rb:106 | 2.5 seconds rounded to seconds: {seconds: 3} |
| RoundingExamples.TruncateMinuteAnd29ToMinutes | spec/active_support/duration/truncate_spec.rb:111 | 1m 29s truncated to minutes: {minutes: 1} |
| RoundingExamples.RoundMinuteAnd29ToMinutes | spec/active_support/duration/truncate_spec.rb:112 | 1m 29s rounded to minutes: {minutes: 1} |
| RoundingExamples.TruncateHourAnd29ToHours | spec/active_support/duration/truncate_spec.rb:117 | 1h 29m truncated to hours: {hours: 1} |
| RoundingExamples.RoundHourAnd29ToHours | spec/active_support/duration/truncate_spec.rb:118 | 1h 29m rounded to hours: {hours: 1} |
| RoundingExamples.TruncateHourAnd89ToHours | spec/active_support/duration/truncate_spec.rb:123 | 1h 89m truncated to hours: {hours: 1}, the overfull minutes never carry |
| RoundingExamples.TruncateTwoHoursAnd29ToHours | spec/active_support/duration/truncate_spec.rb:125 | 2h 29m truncated to hours: {hours: 2} |
| RoundingExamples.RoundHourAnd89ToHours | spec/active_support/duration/truncate_spec.rb:126-127 | 1h 89m rounded to hours: {hours: 2} |
| RoundingExamples.TruncateHourAnd90ToHours | spec/active_support/duration/truncate_spec.rb:132 | 1h 90m truncated to hours: {hours: 1} |
| RoundingExamples.TruncateTwoHoursAnd30ToHours | spec/active_support/duration/truncate_spec.rb:134 | 2h 30m truncated to hours: {hours: 2} |
| RoundingExamples.RoundHourAnd90ToHours | spec/active_support/duration/truncate_spec.rb:135 | 1h 90m rounded to hours: 1 + 3/2 rounds to {hours: 3} |
| RoundingExamples.TruncateThirtySecondsToMinutes | spec/active_support/duration/truncate_spec.rb:140-141 | 30 seconds truncated to minutes: no parts and a length of 0 |
| RoundingExamples.RoundThirtySecondsToMinutes | spec/active_support/duration/truncate_spec.rb:142 | 30 seconds rounded to minutes: {minutes: 1} |
| RoundingExamples.TruncateEightyNineSecondsToMinutes | spec/active_support/duration/truncate_spec.rb:147 | 89 seconds truncated to minutes: no parts |
| RoundingExamples.RoundEightyNineSecondsToMinutes | spec/active_support/duration/truncate_spec.rb:150 | 89 seconds rounded to minutes: {minutes: 1} |
| RoundingExamples.TruncateMinuteAnd30ToMinutes | spec/active_support/duration/truncate_spec.rb:174 | 1m 30s truncated to minutes: {minutes: 1} |
| RoundingExamples.RoundNinetySecondsToMinutes | spec/active_support/duration/truncate_spec.rb:156 | 90 seconds rounded to minutes: {minutes: 2} |
| RoundingExamples.RoundMinuteAnd30ToMinutes | spec/active_support/duration/truncate_spec.rb:175 | 1m 30s rounded to minutes: {minutes: 2} |
| RoundingExamples.TruncateHourAndHalfMinutesByDefault | spec/active_support/duration/truncate_spec.rb:162 | without a precision, 1h 29.5m truncates at its last unit: {hours: 1, minutes: 29} |
| RoundingExamples.RoundHourAndHalfMinutesByDefault | spec/active_support/duration/truncate_spec.rb:163 | without a precision, 1h 29.5m rounds at its last unit: {hours: 1, minutes: 30} |
| RoundingExamples.RoundTwoAndAHalfSecondsByDefault | spec/active_support/duration/truncate_spec.rb:167 | 2.5.seconds.round is exactly 3 seconds |
| RoundingExamples.RoundTwoAndAHalfSecondsHalfDown | spec/active_support/duration/truncate_spec.rb:168 | 2.5.seconds.round(half: :down) is exactly 2 seconds |
| RoundingExamples.TruncateFractionalMinutesToMinutes | spec/active_support/duration/truncate_spec.rb:181 | 1.4m 25s truncated to minutes: {minutes: 1} |
| RoundingExamples.RoundFractionalMinutesToMinutes | spec/active_support/duration/truncate_spec.rb:182 | 1.4m 25s rounded to minutes: {minutes: 2} |
| RoundingExamples.TruncateOverfullMinuteToHours | spec/active_support/duration/truncate_spec.rb:188 | 1h 29m 60s truncated to hours: {hours: 1} |
| RoundingExamples.RoundHourAnd30ToHours | spec/active_support/duration/truncate_spec.rb:189 | 1h 30m, the normal form of 1h 29m 60s, rounded to hours: {hours: 2} |
| RoundingExamples.RoundOverfullMinuteToHours | spec/active_support/duration/truncate_spec.rb:190 | 1h 29m 60s rounded to hours: 1 + 1/2 rounds to {hours: 2} |
| RoundingExamples.TruncateDayHourAnd30ToHours | spec/active_support/duration/truncate_spec.rb:195 | 1d 1h 30m truncated to hours: {days: 1, hours: 1} |
| RoundingExamples.RoundDayHourAnd30ToHours | spec/active_support/duration/truncate_spec.rb:196 | 1d 1h 30m rounded to hours: {days: 1, hours: 2}, the day untouched |
| RoundingExamples.TruncateMinuteAnd29Point9ToMinutes | spec/active_support/duration/truncate_spec.rb:214 | 1m 29.9s truncated to minutes: {minutes: 1} |
| RoundingExamples.RoundMinuteAnd29Point9ToMinutes | spec/active_support/duration/truncate_spec.rb:215 | 1m 29.9s rounded to minutes: {minutes: 1} |
| RoundingExamples.TruncateBuilt1830ToSeconds | spec/active_support/duration/truncate_spec.rb:225 | build(1830.5) truncated to seconds: {minutes: 30, seconds: 30} |
| RoundingExamples.RoundBuilt1830ToSeconds | spec/active_support/duration/truncate_spec.rb:226 | build(1830.5) rounded to seconds: {minutes: 30, seconds: 31} |
| RoundingExamples.TruncateSeconds1830ToHours | spec/active_support/duration/truncate_spec.rb:233 | 1830.5 seconds truncated to hours: no parts |
| RoundingExamples.RoundSeconds1830ToHours | spec/active_support/duration/truncate_spec.rb:234 | 1830.5 seconds rounded to hours: {hours: 1} |
| RoundingExamples.TruncateSeconds1830ToMinutes | spec/active_support/duration/truncate_spec.rb:236 | 1830.5 seconds truncated to minutes: no parts |
| RoundingExamples.TruncateBuilt1830ToMinutes | spec/active_support/duration/truncate_spec.rb:237 | build(1830.5) truncated to minutes: {minutes: 30} |
| RoundingExamples.RoundSeconds1830ToMinutes | spec/active_support/duration/truncate_spec.rb:238 | 1830.5 seconds rounded to minutes: {minutes: 31} |
| RoundingExamples.RoundSeconds1830ToSeconds | spec/active_support/duration/truncate_spec.rb:241 | 1830.5 seconds rounded to seconds: {seconds: 1831} |
| RoundingExamples.RoundBuilt1830ToMinutes | spec/active_support/duration/truncate_spec.rb:247 | build(1830.5) rounded to minutes: {minutes: 31} |

## Left out

- lib/active_support/duration/human_string.rb (`to_human_s`): a formatter. It depends on ActiveSupport's ISO 8601 serializer, which is not part of this model.
- Ruby's Float arithmetic: every quantity is an exact real. `build`'s `value.round(9)` is therefore not modelled. The check at spec/active_support/duration/truncate_spec.rb:74 holds only through a float coincidence and is not modelled.
- The `ndigits` argument that `round` and `truncate` pass on to Ruby's `round` and `truncate`: the model rounds to a whole quantity. Of the options, only `half:` is modelled (up, down and even; up is the default).
- Durations.Normalize: a zero duration normalizes to no parts. ActiveSupport's `build(0)` keeps `{seconds: 0}`.
- Durations.FromParts: Ruby runs `compact.reject` twice, in `from_parts` and in the Duration constructor. The model runs it once, which gives the same parts.
- Durations.FromParts: a non-numeric value, or a key that is neither a symbol of a unit nor another name, is not modelled. A non-unit key with a non-zero value stands for the `TypeError` of `calculate_total_seconds` and becomes the error NotAPart.
- Cascade.ChangeCascade: keys that are not symbols are not modelled. `assert_valid_keys(*PARTS_IN_SECONDS, :nsec, :usec)` splats the factor table, so the integer factors 1, 60, …, 31556952 also pass the key check, and `fetch` then ignores them.
- Error messages: each exception is an error value that carries the offending key, not its message text.
- Durations.SmallestPart: requires a non-empty duration, where Ruby's `[nil].to_h` raises TypeError. It returns the last pair itself rather than a one-entry hash.
- Durations.SmallestUnit: requires a non-empty duration, where Ruby raises NoMethodError. For the same reason, `round` and `truncate` without a precision require a non-empty duration.
- Cascade.ChangeCascade: an `nsec:` on a duration left with no seconds slot makes Ruby's `+=` on nil raise NoMethodError. The model returns the error NilSeconds.
- Cascade.SubsecondShift: a negative `nsec:` is accepted, as in the Ruby code, which checks only the upper bound.
- Precision.TruncateIgnoresSmaller: stated for precisions other than weeks. Truncating to weeks is covered by Precision.WeeksPrecision.
- Precision.RoundCarriesAtMostOne: stated for canonical parts and precisions above seconds. On denormalized parts the carry can be larger, as RoundingExamples.RoundHourAnd90ToHours shows.
- In these places the code does something a reader might not expect, and the model follows the code:
  - `change` appends a new key at the end instead of keeping the parts largest first.
  - A `usec:` option alone is ignored. The range check applies to `nsec / 1000`.
  - `truncate` of 1830.5 seconds to minutes gives no parts: only `parts[:minutes]` is truncated, and it is 0.
  - `build` includes weeks in its greedy pass, as ActiveSupport's PARTS list does.
