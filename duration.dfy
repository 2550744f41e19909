/**
 * The Duration operations of truncate.rb that do not reset anything: building a
 * duration from a hash of parts, normalizing it, changing some parts in place and
 * reading off the parts smaller than a unit.
 */
module Durations {
  import opened Wrappers
  import opened Units
  import opened PartsAlgebra
  import opened Decomposition

  /** A duration: its length in seconds and its parts, in insertion order. */
  datatype Duration = Duration(value: real, parts: Parts)

  /** The length in seconds is what the parts add up to. */
  predicate Consistent(d: Duration) {
    d.value == Total(d.parts)
  }

  /** Every entry that survives compaction sits under a unit key. */
  predicate UnitKeyed(raw: RawParts) {
    forall i | 0 <= i < |raw| :: raw[i].1.Some? && raw[i].1.value != 0.0 ==> raw[i].0.Part?
  }

  lemma CompactUnitKeyed(raw: RawParts)
    ensures UnitKeyed(raw) <==> forall i | 0 <= i < |Compact(raw)| :: Compact(raw)[i].0.Part?
  {
    var c := Compact(raw);
    forall i | 0 <= i < |c| && !c[i].0.Part? ensures !UnitKeyed(raw) {
      CompactMembers(raw, c[i].0, c[i].1);
      var j :| 0 <= j < |raw| && raw[j] == (c[i].0, Some(c[i].1));
    }
    forall i | 0 <= i < |raw| && raw[i].1.Some? && raw[i].1.value != 0.0 && !raw[i].0.Part?
      ensures exists j :: 0 <= j < |c| && !c[j].0.Part?
    {
      CompactMembers(raw, raw[i].0, raw[i].1.value);
      assert raw[i] == (raw[i].0, Some(raw[i].1.value));
      var j :| 0 <= j < |c| && c[j] == (raw[i].0, raw[i].1.value);
    }
  }

  /** The key a failed compacted sum names was given a nonzero value by the caller. */
  lemma CompactFailure(raw: RawParts)
    requires AsParts(Compact(raw)).Failure?
    ensures exists i :: 0 <= i < |raw| && !raw[i].0.Part? && raw[i].1.Some? && raw[i].1.value != 0.0
                     && AsParts(Compact(raw)).error == NotAPart(raw[i].0)
  {
    var c := Compact(raw);
    var j :| 0 <= j < |c| && !c[j].0.Part? && AsParts(c).error == NotAPart(c[j].0);
    CompactMembers(raw, c[j].0, c[j].1);
    var i :| 0 <= i < |raw| && raw[i] == (c[j].0, Some(c[j].1));
  }

  /**
   * Duration.from_parts: drops the nil and zero entries, sums the rest into seconds
   * and, when asked to, normalizes. A surviving entry whose key is not a unit has no
   * size in seconds and fails the sum.
   */
  function FromParts(raw: RawParts, normalize: bool): (r: Result<Duration, Error>)
    ensures r.Success? <==> UnitKeyed(raw)
    ensures r.Success? ==> Consistent(r.value)
  {
    CompactUnitKeyed(raw);
    match AsParts(Compact(raw))
    case Failure(e) =>
      CompactFailure(raw);
      Failure(e)
    case Success(parts) =>
      var d := Duration(Total(parts), parts);
      if normalize then Success(Normalize(d)) else Success(d)
  }

  /**
   * What from_parts gives: the error names a surviving entry that is not a unit;
   * without normalizing the parts are the compacted entries as given; with
   * normalizing they are the greedy decomposition of the total.
   */
  lemma FromPartsOutcome(raw: RawParts, normalize: bool)
    ensures FromParts(raw, normalize).Failure? ==>
      exists i :: 0 <= i < |raw| && !raw[i].0.Part? && raw[i].1.Some? && raw[i].1.value != 0.0
               && FromParts(raw, normalize).error == NotAPart(raw[i].0)
    ensures FromParts(raw, normalize).Success? && !normalize ==> Lift(FromParts(raw, normalize).value.parts) == Compact(raw)
    ensures FromParts(raw, normalize).Success? && normalize ==>
      FromParts(raw, normalize).value.parts == Build(FromParts(raw, normalize).value.value)
  {
    if AsParts(Compact(raw)).Failure? {
      CompactFailure(raw);
    }
  }

  /** When compaction leaves exactly the pairs of p, from_parts keeps p as written. */
  lemma FromPartsVerbatim(raw: RawParts, p: Parts)
    requires Compact(raw) == Lift(p)
    ensures FromParts(raw, false) == Success(Duration(Total(p), p))
  {
    AsPartsLift(p);
  }

  /** Without normalizing, the parts are the caller's nonzero entries, in the caller's order. */
  lemma FromPartsMembers(raw: RawParts, u: Unit, q: real)
    requires FromParts(raw, false).Success?
    ensures (u, q) in FromParts(raw, false).value.parts <==> (Part(u), Some(q)) in raw && q != 0.0
  {
    var p := FromParts(raw, false).value.parts;
    CompactMembers(raw, Part(u), q);
    if (u, q) in p {
      var i :| 0 <= i < |p| && p[i] == (u, q);
      assert Lift(p)[i] == (Part(u), q);
    }
    if (Part(u), q) in Compact(raw) {
      var i :| 0 <= i < |Compact(raw)| && Compact(raw)[i] == (Part(u), q);
      assert Lift(p)[i] == (Part(u), q);
      assert p[i] == (u, q);
    }
  }

  /** With distinct keys, a unit's part is the caller's value for it unless nil or zero. */
  lemma FromPartsLookup(raw: RawParts, u: Unit)
    requires DistinctKeys(raw)
    requires FromParts(raw, false).Success?
    ensures Lookup(FromParts(raw, false).value.parts, u) == NonZero(Get(raw, Part(u)))
  {
    CompactUnitKeyed(raw);
    LookupCompact(raw, u);
  }

  /** Entries given largest unit first stay largest first. */
  lemma FromPartsOrder(raw: RawParts)
    requires FromParts(raw, false).Success?
    requires forall i, j | 0 <= i < j < |raw| :: raw[i].0.Part? && raw[j].0.Part? ==> Rank(raw[i].0.unit) < Rank(raw[j].0.unit)
    ensures LargestFirst(FromParts(raw, false).value.parts)
  {
    var p := FromParts(raw, false).value.parts;
    CompactOrder(raw);
    forall i, j | 0 <= i < j < |p| ensures Rank(p[i].0) < Rank(p[j].0) {
      assert Lift(p)[i].0 == Part(p[i].0) && Lift(p)[j].0 == Part(p[j].0);
    }
  }

  lemma {:induction false} CompactOrder(raw: RawParts)
    requires forall i, j | 0 <= i < j < |raw| :: raw[i].0.Part? && raw[j].0.Part? ==> Rank(raw[i].0.unit) < Rank(raw[j].0.unit)
    ensures forall i, j | 0 <= i < j < |Compact(raw)| ::
      Compact(raw)[i].0.Part? && Compact(raw)[j].0.Part? ==> Rank(Compact(raw)[i].0.unit) < Rank(Compact(raw)[j].0.unit)
  {
    if raw != [] {
      CompactOrder(raw[1..]);
      var c := Compact(raw);
      var t := Compact(raw[1..]);
      forall e | e in t && e.0.Part? && raw[0].0.Part? ensures Rank(raw[0].0.unit) < Rank(e.0.unit) {
        CompactMembers(raw[1..], e.0, e.1);
        var j :| 0 <= j < |raw[1..]| && raw[1..][j] == (e.0, Some(e.1));
        assert raw[j + 1] == raw[1..][j];
      }
      forall i, j | 0 <= i < j < |c| && c[i].0.Part? && c[j].0.Part? ensures Rank(c[i].0.unit) < Rank(c[j].0.unit) {
        if raw[0].1.Some? && raw[0].1.value != 0.0 {
          assert c == [(raw[0].0, raw[0].1.value)] + t;
          if i == 0 {
            assert c[j] == t[j - 1];
            assert c[j] in t;
          } else {
            assert c[i] == t[i - 1] && c[j] == t[j - 1];
          }
        } else {
          assert c == t;
        }
      }
    }
  }

  /** Normalizing from_parts is from_parts followed by normalize. */
  lemma FromPartsNormalizes(raw: RawParts)
    ensures FromParts(raw, true).Success? == FromParts(raw, false).Success?
    ensures FromParts(raw, true).Success? ==> FromParts(raw, true).value == Normalize(FromParts(raw, false).value)
  {
  }

  /**
   * Duration#normalize: the duration rebuilt from its length in seconds. The length is
   * kept; the parts become the canonical decomposition of it (of its absolute value,
   * with every part negated, when it is negative).
   */
  function Normalize(d: Duration): (r: Duration)
    ensures r.value == d.value
    ensures Consistent(r)
    ensures d.value >= 0.0 ==> Canonical(r.parts)
    ensures d.value < 0.0 ==> Canonical(Negate(r.parts))
    ensures d.value >= 0.0 && Consistent(d) && Canonical(d.parts) ==> r == d
  {
    BuildTotal(d.value);
    if d.value >= 0.0 then
      BuildCharacterized(d.value, Build(d.value));
      BuildCharacterized(d.value, d.parts);
      Duration(d.value, Build(d.value))
    else
      BuildCharacterized(-d.value, Build(-d.value));
      NegateTwice(Build(-d.value));
      Duration(d.value, Build(d.value))
  }

  lemma NegateTwice(p: Parts)
    ensures Negate(Negate(p)) == p
  {
  }

  /** Normalizing twice is normalizing once. */
  lemma NormalizeIdempotent(d: Duration)
    ensures Normalize(Normalize(d)) == Normalize(d)
  {
  }

  /**
   * Duration#change: the given entries overwrite the parts they name, in place; new
   * keys go after the existing ones; then nil and zero values are dropped, without
   * normalizing. A non-unit key with a nonzero value fails, as in from_parts.
   */
  function Change(d: Duration, changes: RawParts): (r: Result<Duration, Error>)
    ensures r.Success? <==> UnitKeyed(changes)
    ensures r.Success? ==> Consistent(r.value)
  {
    MergeUnitKeyed(d.parts, changes);
    FromParts(Merge(LiftRaw(d.parts), changes), false)
  }

  lemma MergeUnitKeyed(p: Parts, changes: RawParts)
    ensures UnitKeyed(Merge(LiftRaw(p), changes)) <==> UnitKeyed(changes)
  {
    var base := LiftRaw(p);
    var o := Overlay(base, changes);
    var n := NewEntries(base, changes);
    var m := Merge(base, changes);
    assert m == o + n;
    if UnitKeyed(changes) {
      forall i | 0 <= i < |m| && m[i].1.Some? && m[i].1.value != 0.0 ensures m[i].0.Part? {
        if i < |o| {
          assert m[i].0 == base[i].0;
        } else {
          assert m[i] == n[i - |o|];
          NewEntriesMembers(base, changes, m[i]);
          var j :| 0 <= j < |changes| && changes[j] == m[i];
        }
      }
    }
    forall i | 0 <= i < |changes| && changes[i].1.Some? && changes[i].1.value != 0.0 && !changes[i].0.Part?
      ensures !UnitKeyed(m)
    {
      LiftRawKeys(p, changes[i].0);
      NewEntriesMembers(base, changes, changes[i]);
      var j :| 0 <= j < |n| && n[j] == changes[i];
      assert m[|o| + j] == n[j];
    }
  }

  /**
   * What change leaves under each unit: the changed value when the unit is given,
   * the old part otherwise, and nothing when that is nil or zero.
   */
  lemma ChangeLookup(d: Duration, changes: RawParts, u: Unit)
    requires DistinctUnits(d.parts) && DistinctKeys(changes)
    requires Change(d, changes).Success?
    ensures Lookup(Change(d, changes).value.parts, u) ==
      NonZero(if HasKey(changes, Part(u)) then Get(changes, Part(u)) else Lookup(d.parts, u))
  {
    var base := LiftRaw(d.parts);
    LiftRawDistinct(d.parts);
    MergeDistinct(base, changes);
    FromPartsLookup(Merge(base, changes), u);
    GetMerge(base, changes, Part(u));
    GetLiftRaw(d.parts, u);
  }

  /**
   * The order change leaves the parts in: the existing parts, each overwritten where
   * a change names it, then the changes for keys that were not there, in the order
   * given; entries left nil or zero are dropped from either.
   */
  lemma ChangeLayout(d: Duration, changes: RawParts)
    requires Change(d, changes).Success?
    ensures Lift(Change(d, changes).value.parts) ==
      Compact(Overlay(LiftRaw(d.parts), changes)) + Compact(NewEntries(LiftRaw(d.parts), changes))
  {
    CompactAppend(Overlay(LiftRaw(d.parts), changes), NewEntries(LiftRaw(d.parts), changes));
  }

  /** Changing units that are all present, to nonzero values, keeps every part in its place. */
  lemma ChangeInPlace(d: Duration, changes: RawParts)
    requires forall i | 0 <= i < |d.parts| :: d.parts[i].1 != 0.0
    requires forall i | 0 <= i < |changes| ::
      changes[i].0.Part? && changes[i].1.Some? && changes[i].1.value != 0.0 && Lookup(d.parts, changes[i].0.unit).Some?
    ensures Change(d, changes).Success?
    ensures |Change(d, changes).value.parts| == |d.parts|
    ensures forall i | 0 <= i < |d.parts| ::
      Change(d, changes).value.parts[i] == (d.parts[i].0, ChangedValue(d.parts[i], changes))
  {
    var base := LiftRaw(d.parts);
    var o := Overlay(base, changes);
    var n := NewEntries(base, changes);
    assert UnitKeyed(changes);
    if n != [] {
      NewEntriesMembers(base, changes, n[0]);
      var j :| 0 <= j < |changes| && changes[j] == n[0];
      GetLiftRaw(d.parts, changes[j].0.unit);
    }
    assert n == [];
    forall i | 0 <= i < |o| ensures o[i].1.Some? && o[i].1.value != 0.0 {
      if HasKey(changes, base[i].0) {
        HasKeyAt(changes, base[i].0);
        GetWitness(changes, base[i].0);
      }
    }
    CompactAll(o);
    ChangeLayout(d, changes);
    var p := Change(d, changes).value.parts;
    assert Compact(n) == [];
    assert Lift(p) == Compact(o);
    forall i | 0 <= i < |d.parts| ensures p[i] == (d.parts[i].0, ChangedValue(d.parts[i], changes)) {
      assert Lift(p)[i] == Compact(o)[i];
    }
  }

  /** The quantity a part takes under changes that give every key a value. */
  function ChangedValue(e: (Unit, real), changes: RawParts): real {
    if HasKey(changes, Part(e.0)) && Get(changes, Part(e.0)).Some? then Get(changes, Part(e.0)).value else e.1
  }

  /** A key a hash has holds one of the values given for it. */
  lemma {:induction false} GetWitness(raw: RawParts, k: Key)
    requires HasKey(raw, k)
    ensures exists i :: 0 <= i < |raw| && raw[i].0 == k && raw[i].1 == Get(raw, k)
  {
    if raw[0].0 != k {
      GetWitness(raw[1..], k);
      var i :| 0 <= i < |raw[1..]| && raw[1..][i].0 == k && raw[1..][i].1 == Get(raw[1..], k);
      assert raw[i + 1] == raw[1..][i];
    }
  }

  /** Compaction keeps a hash whose values are all present and nonzero as it is. */
  lemma {:induction false} CompactAll(raw: RawParts)
    requires forall i | 0 <= i < |raw| :: raw[i].1.Some? && raw[i].1.value != 0.0
    ensures |Compact(raw)| == |raw|
    ensures forall i | 0 <= i < |raw| :: Compact(raw)[i] == (raw[i].0, raw[i].1.value)
  {
    if raw != [] {
      CompactAll(raw[1..]);
      assert Compact(raw) == [(raw[0].0, raw[0].1.value)] + Compact(raw[1..]);
    }
  }

  /** Changing one absent unit to a nonzero value appends it. */
  lemma ChangeAppends(d: Duration, u: Unit, x: real)
    requires forall i | 0 <= i < |d.parts| :: d.parts[i].1 != 0.0
    requires Lookup(d.parts, u).None? && x != 0.0
    ensures Change(d, [(Part(u), Some(x))]).Success?
    ensures Change(d, [(Part(u), Some(x))]).value.parts == d.parts + [(u, x)]
  {
    var changes := [(Part(u), Some(x))];
    AppendLayout(d.parts, u, x);
    assert UnitKeyed(changes);
    ChangeLayout(d, changes);
    AppendParts(d.parts, u, x, Change(d, changes).value.parts);
  }

  /** Merging one absent unit leaves the base hash as it is and adds the new pair. */
  lemma AppendLayout(p: Parts, u: Unit, x: real)
    requires Lookup(p, u).None?
    ensures Overlay(LiftRaw(p), [(Part(u), Some(x))]) == LiftRaw(p)
    ensures NewEntries(LiftRaw(p), [(Part(u), Some(x))]) == [(Part(u), Some(x))]
  {
    var changes := [(Part(u), Some(x))];
    var base := LiftRaw(p);
    var o := Overlay(base, changes);
    GetLiftRaw(p, u);
    assert NewEntries(base, changes) == changes;
    HasKeyAt(base, Part(u));
    forall i | 0 <= i < |o| ensures o[i] == base[i] {
      assert base[i].0 != Part(u);
      assert !HasKey(changes[1..], base[i].0);
    }
  }

  lemma AppendParts(p: Parts, u: Unit, x: real, q: Parts)
    requires forall i | 0 <= i < |p| :: p[i].1 != 0.0
    requires x != 0.0
    requires Lift(q) == Compact(LiftRaw(p)) + Compact([(Part(u), Some(x))])
    ensures q == p + [(u, x)]
  {
    CompactAll(LiftRaw(p));
    CompactAll([(Part(u), Some(x))]);
    assert |q| == |p| + 1;
    forall i | 0 <= i < |q| ensures q[i] == (p + [(u, x)])[i] {
      assert Lift(q)[i] == (Compact(LiftRaw(p)) + Compact([(Part(u), Some(x))]))[i];
    }
  }

  /**
   * Duration#smaller_parts: the parts whose units come strictly after `k` in
   * largest-first order, largest first. A key that is not a unit is an error.
   */
  function SmallerParts(d: Duration, k: Key): (r: Result<Parts, Error>)
    ensures r.Failure? <==> !k.Part?
    ensures r.Failure? ==> r.error == UnknownUnit(k)
    ensures r.Success? ==> LargestFirst(r.value)
    ensures r.Success? ==> forall u: Unit, q: real ::
      (u, q) in r.value <==> Rank(u) > Rank(k.unit) && Lookup(d.parts, u) == Some(q)
  {
    match SmallerUnits(k)
    case Failure(e) => Failure(e)
    case Success(us) =>
      SmallerSliceFacts(d.parts, k, us);
      Success(Slice(d.parts, us))
  }

  lemma SmallerSliceFacts(p: Parts, k: Key, us: seq<Unit>)
    requires SmallerUnits(k) == Success(us)
    ensures LargestFirst(Slice(p, us))
    ensures forall u: Unit, q: real :: (u, q) in Slice(p, us) <==> Rank(u) > Rank(k.unit) && Lookup(p, u) == Some(q)
  {
    SliceLargestFirst(p, us);
    forall u: Unit, q: real ensures (u, q) in Slice(p, us) <==> Rank(u) > Rank(k.unit) && Lookup(p, u) == Some(q) {
      SliceMembers(p, us, u, q);
    }
  }

  /**
   * Duration#smaller_parts_to_fraction_of: the smaller parts, in seconds, as a
   * fraction of one `k`.
   */
  function SmallerPartsToFractionOf(d: Duration, k: Key): (r: Result<real, Error>)
    ensures r.Failure? <==> !k.Part?
    ensures r.Failure? ==> r.error == UnknownUnit(k)
  {
    match SmallerParts(d, k)
    case Failure(e) => Failure(e)
    case Success(s) => Success(InUnits(Total(s), k.unit))
  }

  /** The first position whose unit comes after rank r, in largest-first parts. */
  lemma SplitAfter(p: Parts, r: nat) returns (i: nat)
    requires LargestFirst(p)
    ensures i <= |p|
    ensures forall j | 0 <= j < i :: Rank(p[j].0) <= r
    ensures forall j | i <= j < |p| :: Rank(p[j].0) > r
  {
    i := 0;
    while i < |p| && Rank(p[i].0) <= r
      invariant i <= |p|
      invariant forall j | 0 <= j < i :: Rank(p[j].0) <= r
    {
      i := i + 1;
    }
  }

  /** In largest-first parts, the parts smaller than a unit are the parts after the split. */
  lemma SmallerPartsSuffix(d: Duration, u: Unit) returns (i: nat)
    requires LargestFirst(d.parts)
    ensures i <= |d.parts|
    ensures SmallerParts(d, Part(u)).value == d.parts[i..]
    ensures forall j | i <= j < |d.parts| :: Rank(d.parts[j].0) > Rank(u)
  {
    i := SplitAfter(d.parts, Rank(u));
    SmallerPartsAt(d, u, i);
  }

  /** Split largest-first parts where the units start coming after u: the smaller parts are the tail. */
  lemma SmallerPartsAt(d: Duration, u: Unit, i: nat)
    requires LargestFirst(d.parts) && i <= |d.parts|
    requires forall j | 0 <= j < i :: Rank(d.parts[j].0) <= Rank(u)
    requires forall j | i <= j < |d.parts| :: Rank(d.parts[j].0) > Rank(u)
    ensures SmallerParts(d, Part(u)).value == d.parts[i..]
  {
    var p := d.parts;
    var s := SmallerParts(d, Part(u)).value;
    forall e | e in s ensures e in p[i..] {
      SmallerSuffixMember(d, u, i, e);
    }
    forall e | e in p[i..] ensures e in s {
      SuffixSmallerMember(d, u, i, e);
    }
    SuffixLargestFirst(p, i);
    LargestFirstUnique(s, p[i..]);
  }

  lemma SuffixLargestFirst(p: Parts, i: nat)
    requires LargestFirst(p) && i <= |p|
    ensures LargestFirst(p[i..])
  {
    forall a, b | 0 <= a < b < |p[i..]| ensures Rank(p[i..][a].0) < Rank(p[i..][b].0) {
      assert p[i..][a] == p[i + a] && p[i..][b] == p[i + b];
    }
  }

  lemma SmallerSuffixMember(d: Duration, u: Unit, i: nat, e: (Unit, real))
    requires LargestFirst(d.parts) && i <= |d.parts|
    requires forall j | 0 <= j < i :: Rank(d.parts[j].0) <= Rank(u)
    requires e in SmallerParts(d, Part(u)).value
    ensures e in d.parts[i..]
  {
    SmallerMember(d, u, e);
    MemberAfterSplit(d.parts, u, i, e);
  }

  lemma SmallerMember(d: Duration, u: Unit, e: (Unit, real))
    requires LargestFirst(d.parts)
    requires e in SmallerParts(d, Part(u)).value
    ensures e in d.parts && Rank(e.0) > Rank(u)
  {
    assert (e.0, e.1) in SmallerParts(d, Part(u)).value;
    assert Lookup(d.parts, e.0) == Some(e.1);
    LargestFirstDistinct(d.parts);
    LookupIsMember(d.parts, e.0, e.1);
  }

  lemma MemberAfterSplit(p: Parts, u: Unit, i: nat, e: (Unit, real))
    requires i <= |p|
    requires forall j | 0 <= j < i :: Rank(p[j].0) <= Rank(u)
    requires e in p && Rank(e.0) > Rank(u)
    ensures e in p[i..]
  {
    var j :| 0 <= j < |p| && p[j] == e;
    assert p[i..][j - i] == e;
  }

  lemma SuffixSmallerMember(d: Duration, u: Unit, i: nat, e: (Unit, real))
    requires LargestFirst(d.parts) && i <= |d.parts|
    requires forall j | i <= j < |d.parts| :: Rank(d.parts[j].0) > Rank(u)
    requires e in d.parts[i..]
    ensures e in SmallerParts(d, Part(u)).value
  {
    var p := d.parts;
    var j :| 0 <= j < |p[i..]| && p[i..][j] == e;
    assert p[i + j] == e;
    LargestFirstDistinct(p);
    LookupIsMember(p, e.0, e.1);
    assert (e.0, e.1) in SmallerParts(d, Part(u)).value;
  }

  /** A canonical suffix whose units all come after u adds up to less than one u. */
  lemma SuffixBelowUnit(p: Parts, i: nat, u: Unit)
    requires Canonical(p) && i <= |p|
    requires forall j | i <= j < |p| :: Rank(p[j].0) > Rank(u)
    ensures 0.0 <= Total(p[i..]) < Factor(u)
  {
    forall j | 0 <= j < |p[i..]| ensures p[i..][j].1 > 0.0 {
      CanonicalEntry(p, i + j);
    }
    TotalNonNegative(p[i..]);
    if i < |p| {
      var v := p[i].0;
      CanonicalEntry(p, i);
      FactorAtMonotone(Rank(u), Rank(v) - 1);
      RankOrdersFactors(u, UnitAt(Rank(u)));
    } else {
      assert p[i..] == [];
    }
  }

  /**
   * For a duration in normal form the smaller parts make up less than one of the
   * unit, so the fraction round adds lies in [0, 1).
   */
  lemma FractionBelowOne(d: Duration, u: Unit)
    requires Canonical(d.parts)
    ensures 0.0 <= SmallerPartsToFractionOf(d, Part(u)).value < 1.0
  {
    var i := SmallerPartsSuffix(d, u);
    SuffixFractionBelowOne(d, u, i);
  }

  lemma SuffixFractionBelowOne(d: Duration, u: Unit, i: nat)
    requires Canonical(d.parts) && i <= |d.parts|
    requires SmallerParts(d, Part(u)).value == d.parts[i..]
    requires forall j | i <= j < |d.parts| :: Rank(d.parts[j].0) > Rank(u)
    ensures 0.0 <= SmallerPartsToFractionOf(d, Part(u)).value < 1.0
  {
    SuffixBelowUnit(d.parts, i, u);
    SuffixFraction(d, u, d.parts[i..]);
  }

  lemma SuffixFraction(d: Duration, u: Unit, s: Parts)
    requires SmallerParts(d, Part(u)).value == s
    requires 0.0 <= Total(s) < Factor(u)
    ensures 0.0 <= SmallerPartsToFractionOf(d, Part(u)).value < 1.0
  {
    FractionValue(d, u);
    FractionBounds(Total(s), u);
  }

  lemma FractionValue(d: Duration, u: Unit)
    ensures SmallerPartsToFractionOf(d, Part(u)).value == InUnits(Total(SmallerParts(d, Part(u)).value), u)
  {
  }

  /** The fraction, taken times one `u` in seconds, gives back the smaller parts' total. */
  lemma FractionOfUnit(d: Duration, u: Unit)
    ensures SmallerPartsToFractionOf(d, Part(u)).value * Factor(u) == Total(SmallerParts(d, Part(u)).value)
  {
    var t := Total(SmallerParts(d, Part(u)).value);
    Conversions(SmallerPartsToFractionOf(d, Part(u)).value, t, u);
  }

  lemma FractionBounds(t: real, u: Unit)
    requires 0.0 <= t < Factor(u)
    ensures 0.0 <= InUnits(t, u) < 1.0
  {
  }

  /** Duration#smallest_part: the last part in insertion order. */
  function SmallestPart(d: Duration): (r: (Unit, real))
    requires |d.parts| > 0
    ensures r in d.parts
    ensures r == d.parts[|d.parts| - 1]
    ensures LargestFirst(d.parts) ==> forall i | 0 <= i < |d.parts| :: Rank(d.parts[i].0) <= Rank(r.0)
  {
    d.parts[|d.parts| - 1]
  }

  /** Duration#smallest_unit: the unit of the last part; the smallest one present in normal form. */
  function SmallestUnit(d: Duration): (r: Unit)
    requires |d.parts| > 0
    ensures Lookup(d.parts, r).Some?
    ensures DistinctUnits(d.parts) ==> Lookup(d.parts, r) == Some(d.parts[|d.parts| - 1].1)
    ensures LargestFirst(d.parts) ==> forall i | 0 <= i < |d.parts| :: Rank(d.parts[i].0) <= Rank(r)
  {
    LastLookup(d.parts);
    SmallestPart(d).0
  }

  lemma LastLookup(p: Parts)
    requires |p| > 0
    ensures Lookup(p, p[|p| - 1].0).Some?
    ensures DistinctUnits(p) ==> Lookup(p, p[|p| - 1].0) == Some(p[|p| - 1].1)
  {
    var e := p[|p| - 1];
    assert e in p;
    LookupPresent(p, e.0, |p| - 1);
    if DistinctUnits(p) {
      LookupIsMember(p, e.0, e.1);
    }
  }

  lemma {:induction false} LookupPresent(p: Parts, u: Unit, i: nat)
    requires i < |p| && p[i].0 == u
    ensures Lookup(p, u).Some?
  {
    if p[0].0 != u {
      LookupPresent(p[1..], u, i - 1);
    }
  }
}
