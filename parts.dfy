/**
 * The hash operations the truncate extension applies to a duration's parts:
 * `compact.reject { |k, v| v.zero? }`, calculate_total_seconds, Hash#merge and
 * Hash#slice, over parts kept in insertion order as a Ruby Hash keeps them.
 */
module PartsAlgebra {
  import opened Wrappers
  import opened Units

  /** A duration's parts: (unit, quantity) pairs in insertion order. */
  type Parts = seq<(Unit, real)>

  /** A caller's hash of parts or options: any symbol as key, nil allowed as value. */
  type RawParts = seq<(Key, Option<real>)>

  /** What makes a sequence of pairs a Hash: no key twice. */
  predicate DistinctUnits(p: Parts) {
    forall i, j | 0 <= i < j < |p| :: p[i].0 != p[j].0
  }

  predicate DistinctKeys(raw: RawParts) {
    forall i, j | 0 <= i < j < |raw| :: raw[i].0 != raw[j].0
  }

  /** The units appear from largest to smallest (each at most once). */
  predicate LargestFirst(p: Parts) {
    forall i, j | 0 <= i < j < |p| :: Rank(p[i].0) < Rank(p[j].0)
  }

  /** calculate_total_seconds: the sum of quantity times factor. */
  function Total(p: Parts): real {
    if p == [] then 0.0 else InSeconds(p[0].1, p[0].0) + Total(p[1..])
  }

  lemma {:induction false} TotalAppend(p: Parts, q: Parts)
    ensures Total(p + q) == Total(p) + Total(q)
  {
    if p == [] {
      assert p + q == q;
    } else {
      assert (p + q)[0] == p[0];
      assert (p + q)[1..] == p[1..] + q;
      TotalAppend(p[1..], q);
    }
  }

  lemma TotalCons(u: Unit, x: real, p: Parts)
    ensures Total([(u, x)] + p) == InSeconds(x, u) + Total(p)
  {
    assert ([(u, x)] + p)[1..] == p;
  }

  /** Parts whose quantities are all positive add up to a positive total (or none). */
  lemma {:induction false} TotalNonNegative(p: Parts)
    requires forall i | 0 <= i < |p| :: p[i].1 > 0.0
    ensures Total(p) >= 0.0
    ensures p != [] ==> Total(p) > 0.0
  {
    if p != [] {
      TotalNonNegative(p[1..]);
    }
  }

  /** parts[u]: the quantity stored for u, nil when there is none. */
  function Lookup(p: Parts, u: Unit): Option<real> {
    if p == [] then None
    else if p[0].0 == u then Some(p[0].1)
    else Lookup(p[1..], u)
  }

  /** For a hash, parts[u] is the quantity of the one pair whose unit is u. */
  lemma {:induction false} LookupIsMember(p: Parts, u: Unit, q: real)
    requires DistinctUnits(p)
    ensures Lookup(p, u) == Some(q) <==> (u, q) in p
    ensures Lookup(p, u).None? <==> forall i | 0 <= i < |p| :: p[i].0 != u
  {
    if p != [] {
      LookupIsMember(p[1..], u, q);
      if p[0].0 == u {
        assert forall i | 1 <= i < |p| :: p[i].0 != u;
        assert (u, q) in p[1..] ==> false;
      }
    }
  }

  /** hash[k] for a caller's hash: nil both when k is absent and when it maps to nil. */
  function Get(raw: RawParts, k: Key): Option<real> {
    if raw == [] then None
    else if raw[0].0 == k then raw[0].1
    else Get(raw[1..], k)
  }

  /** hash.key?(k) */
  predicate HasKey(raw: RawParts, k: Key) {
    raw != [] && (raw[0].0 == k || HasKey(raw[1..], k))
  }

  /** key? holds exactly when some pair has the key. */
  lemma {:induction false} HasKeyAt(raw: RawParts, k: Key)
    ensures HasKey(raw, k) <==> exists i :: 0 <= i < |raw| && raw[i].0 == k
  {
    if raw != [] {
      HasKeyAt(raw[1..], k);
      if HasKey(raw[1..], k) {
        var i :| 0 <= i < |raw[1..]| && raw[1..][i].0 == k;
        assert raw[i + 1].0 == k;
      }
      if exists i :: 0 <= i < |raw| && raw[i].0 == k {
        var i :| 0 <= i < |raw| && raw[i].0 == k;
        if i > 0 { assert raw[1..][i - 1].0 == k; }
      }
    }
  }

  lemma {:induction false} GetAbsent(raw: RawParts, k: Key)
    requires !HasKey(raw, k)
    ensures Get(raw, k).None?
  {
    if raw != [] {
      GetAbsent(raw[1..], k);
    }
  }

  /** A quantity that survives `reject { |k, v| v.zero? }` after `compact`. */
  function NonZero(o: Option<real>): (r: Option<real>)
    ensures r.Some? <==> o.Some? && o.value != 0.0
    ensures r.Some? ==> r == o
  {
    if o.Some? && o.value != 0.0 then o else None
  }

  /** `compact.reject { |k, v| v.zero? }`: drop nil and zero values, keep the rest in order. */
  function Compact(raw: RawParts): seq<(Key, real)> {
    if raw == [] then []
    else if raw[0].1.Some? && raw[0].1.value != 0.0 then [(raw[0].0, raw[0].1.value)] + Compact(raw[1..])
    else Compact(raw[1..])
  }

  /** Compact keeps exactly the non-nil, non-zero pairs ... */
  lemma {:induction false} CompactMembers(raw: RawParts, k: Key, v: real)
    ensures (k, v) in Compact(raw) <==> (k, Some(v)) in raw && v != 0.0
  {
    if raw != [] {
      CompactMembers(raw[1..], k, v);
      assert raw == [raw[0]] + raw[1..];
    }
  }

  /** ... and keeps their order: it distributes over concatenation. */
  lemma {:induction false} CompactAppend(a: RawParts, b: RawParts)
    ensures Compact(a + b) == Compact(a) + Compact(b)
  {
    if a == [] {
      assert a + b == b;
    } else {
      assert (a + b)[0] == a[0];
      assert (a + b)[1..] == a[1..] + b;
      CompactAppend(a[1..], b);
    }
  }

  /**
   * The unit of every compacted key, as calculate_total_seconds needs it; the first key
   * that is not a unit has no factor, and Ruby raises a TypeError for it.
   */
  function AsParts(c: seq<(Key, real)>): (r: Result<Parts, Error>)
    ensures r.Success? <==> forall i | 0 <= i < |c| :: c[i].0.Part?
    ensures r.Success? ==> Lift(r.value) == c
    ensures r.Failure? ==> exists i :: 0 <= i < |c| && !c[i].0.Part? && r.error == NotAPart(c[i].0)
  {
    if c == [] then Success([])
    else if !c[0].0.Part? then Failure(NotAPart(c[0].0))
    else
      match AsParts(c[1..])
      case Failure(e) =>
        var i :| 0 <= i < |c[1..]| && !c[1..][i].0.Part? && e == NotAPart(c[1..][i].0);
        assert !c[i + 1].0.Part?;
        Failure(e)
      case Success(p) =>
        assert Lift([(c[0].0.unit, c[0].1)] + p) == [c[0]] + Lift(p);
        Success([(c[0].0.unit, c[0].1)] + p)
  }

  /** Parts seen as keyed pairs. */
  function Lift(p: Parts): (c: seq<(Key, real)>)
    ensures |c| == |p|
    ensures forall i | 0 <= i < |p| :: c[i] == (Part(p[i].0), p[i].1)
  {
    if p == [] then [] else [(Part(p[0].0), p[0].1)] + Lift(p[1..])
  }

  /** Parts seen as a caller's hash. */
  function LiftRaw(p: Parts): (raw: RawParts)
    ensures |raw| == |p|
    ensures forall i | 0 <= i < |p| :: raw[i] == (Part(p[i].0), Some(p[i].1))
  {
    if p == [] then [] else [(Part(p[0].0), Some(p[0].1))] + LiftRaw(p[1..])
  }

  /** Compacted keys of a hash are distinct. */
  lemma {:induction false} CompactDistinct(raw: RawParts)
    requires DistinctKeys(raw)
    ensures forall i, j | 0 <= i < j < |Compact(raw)| :: Compact(raw)[i].0 != Compact(raw)[j].0
  {
    if raw != [] {
      CompactDistinct(raw[1..]);
      forall e | e in Compact(raw[1..]) ensures e.0 != raw[0].0 {
        CompactMembers(raw[1..], e.0, e.1);
        var i :| 0 <= i < |raw[1..]| && raw[1..][i] == (e.0, Some(e.1));
        assert raw[i + 1].0 == e.0;
      }
    }
  }

  /**
   * Looking a unit up in the parts built from a hash gives that hash's value for the
   * unit, provided it survives compaction.
   */
  lemma {:induction false} LookupCompact(raw: RawParts, u: Unit)
    requires DistinctKeys(raw)
    requires AsParts(Compact(raw)).Success?
    ensures Lookup(AsParts(Compact(raw)).value, u) == NonZero(Get(raw, Part(u)))
  {
    if raw != [] {
      var rest := raw[1..];
      assert DistinctKeys(rest);
      if raw[0].1.Some? && raw[0].1.value != 0.0 {
        assert Compact(raw) == [(raw[0].0, raw[0].1.value)] + Compact(rest);
        assert Compact(raw)[1..] == Compact(rest);
      }
      assert AsParts(Compact(rest)).Success?;
      LookupCompact(rest, u);
      if raw[0].0 == Part(u) {
        HasKeyAt(rest, Part(u));
        GetAbsent(rest, Part(u));
      }
    }
  }

  /** Hash#merge: changes overwrite existing keys in place and new keys go at the end. */
  function Merge(base: RawParts, changes: RawParts): RawParts {
    Overlay(base, changes) + NewEntries(base, changes)
  }

  /** The base hash with every key present in changes given its new value, in place. */
  function Overlay(base: RawParts, changes: RawParts): (r: RawParts)
    ensures |r| == |base|
    ensures forall i | 0 <= i < |base| :: r[i].0 == base[i].0
    ensures forall i | 0 <= i < |base| ::
      r[i].1 == if HasKey(changes, base[i].0) then Get(changes, base[i].0) else base[i].1
  {
    if base == [] then []
    else
      var k := base[0].0;
      [(k, if HasKey(changes, k) then Get(changes, k) else base[0].1)] + Overlay(base[1..], changes)
  }

  /** The pairs of changes whose key the base hash lacks, in the order of changes. */
  function NewEntries(base: RawParts, changes: RawParts): RawParts {
    if changes == [] then []
    else (if HasKey(base, changes[0].0) then [] else [changes[0]]) + NewEntries(base, changes[1..])
  }

  /** The new entries are the pairs of changes with a key the base lacks. */
  lemma {:induction false} NewEntriesMembers(base: RawParts, changes: RawParts, e: (Key, Option<real>))
    ensures e in NewEntries(base, changes) <==> e in changes && !HasKey(base, e.0)
  {
    if changes != [] {
      NewEntriesMembers(base, changes[1..], e);
      assert changes == [changes[0]] + changes[1..];
    }
  }

  /** Every key of a merge comes from one of the two hashes, and appears once. */
  lemma MergeDistinct(base: RawParts, changes: RawParts)
    requires DistinctKeys(base) && DistinctKeys(changes)
    ensures DistinctKeys(Merge(base, changes))
  {
    NewEntriesDistinct(base, changes);
    var o: RawParts, n: RawParts := Overlay(base, changes), NewEntries(base, changes);
    forall i, j | 0 <= i < |o| <= j < |o| + |n| ensures (o + n)[i].0 != (o + n)[j].0 {
      NewEntriesMembers(base, changes, n[j - |o|]);
      HasKeyAt(base, n[j - |o|].0);
    }
  }

  lemma {:induction false} NewEntriesDistinct(base: RawParts, changes: RawParts)
    requires DistinctKeys(changes)
    ensures DistinctKeys(NewEntries(base, changes))
  {
    if changes != [] {
      NewEntriesDistinct(base, changes[1..]);
      forall e | e in NewEntries(base, changes[1..]) ensures e.0 != changes[0].0 {
        NewEntriesMembers(base, changes[1..], e);
        var i :| 0 <= i < |changes[1..]| && changes[1..][i] == e;
        assert changes[i + 1] == e;
      }
    }
  }

  /** A merged hash answers with the change when there is one and with the base otherwise. */
  lemma GetMerge(base: RawParts, changes: RawParts, k: Key)
    ensures Get(Merge(base, changes), k) == if HasKey(changes, k) then Get(changes, k) else Get(base, k)
  {
    GetAppend(Overlay(base, changes), NewEntries(base, changes), k);
    GetOverlay(base, changes, k);
    if !HasKey(base, k) {
      GetNewEntries(base, changes, k);
      GetAbsent(base, k);
      if !HasKey(changes, k) {
        GetAbsent(changes, k);
      }
    }
  }

  /** Looking up in a concatenation finds the first hash's pair before the second's. */
  lemma {:induction false} GetAppend(a: RawParts, b: RawParts, k: Key)
    ensures Get(a + b, k) == if HasKey(a, k) then Get(a, k) else Get(b, k)
    ensures HasKey(a + b, k) <==> HasKey(a, k) || HasKey(b, k)
  {
    if a == [] {
      assert a + b == b;
    } else {
      assert (a + b)[0] == a[0];
      assert (a + b)[1..] == a[1..] + b;
      GetAppend(a[1..], b, k);
    }
  }

  lemma {:induction false} GetOverlay(base: RawParts, changes: RawParts, k: Key)
    ensures HasKey(base, k) ==>
      Get(Overlay(base, changes), k) == if HasKey(changes, k) then Get(changes, k) else Get(base, k)
    ensures HasKey(Overlay(base, changes), k) <==> HasKey(base, k)
  {
    if base != [] {
      GetOverlay(base[1..], changes, k);
      assert Overlay(base, changes)[1..] == Overlay(base[1..], changes);
    }
  }

  lemma {:induction false} GetNewEntries(base: RawParts, changes: RawParts, k: Key)
    requires !HasKey(base, k)
    ensures Get(NewEntries(base, changes), k) == Get(changes, k)
  {
    if changes != [] {
      GetNewEntries(base, changes[1..], k);
      var tail := NewEntries(base, changes[1..]);
      if HasKey(base, changes[0].0) {
        assert changes[0].0 != k;
        assert NewEntries(base, changes) == [] + tail == tail;
      } else {
        assert NewEntries(base, changes) == [changes[0]] + tail;
        assert NewEntries(base, changes)[0] == changes[0];
        assert NewEntries(base, changes)[1..] == tail;
      }
    }
  }

  /** In a hash, looking up the key at position i gives the value at position i. */
  lemma {:induction false} GetAt(raw: RawParts, i: nat)
    requires DistinctKeys(raw) && i < |raw|
    ensures Get(raw, raw[i].0) == raw[i].1
  {
    if i > 0 {
      assert raw[1..][i - 1] == raw[i];
      GetAt(raw[1..], i - 1);
    }
  }

  /** Hash#slice: the pairs for the given units, in the order the units are given. */
  function Slice(p: Parts, us: seq<Unit>): Parts {
    if us == [] then []
    else
      (match Lookup(p, us[0]) case Some(q) => [(us[0], q)] case None => []) + Slice(p, us[1..])
  }

  /** A slice holds a pair exactly when its unit is asked for and present. */
  lemma {:induction false} SliceMembers(p: Parts, us: seq<Unit>, u: Unit, q: real)
    ensures (u, q) in Slice(p, us) <==> u in us && Lookup(p, u) == Some(q)
  {
    if us != [] {
      SliceMembers(p, us[1..], u, q);
      assert us == [us[0]] + us[1..];
    }
  }

  /** Slicing by units in largest-first order yields parts in largest-first order. */
  lemma {:induction false} SliceLargestFirst(p: Parts, us: seq<Unit>)
    requires forall i, j | 0 <= i < j < |us| :: Rank(us[i]) < Rank(us[j])
    ensures LargestFirst(Slice(p, us))
  {
    if us != [] {
      SliceLargestFirst(p, us[1..]);
      forall e | e in Slice(p, us[1..]) ensures Rank(us[0]) < Rank(e.0) {
        SliceMembers(p, us[1..], e.0, e.1);
        var i :| 0 <= i < |us[1..]| && us[1..][i] == e.0;
        assert us[i + 1] == e.0;
      }
    }
  }

  /** Largest-first parts have distinct units. */
  lemma LargestFirstDistinct(p: Parts)
    requires LargestFirst(p)
    ensures DistinctUnits(p)
  {
    forall i, j | 0 <= i < j < |p| ensures p[i].0 != p[j].0 {
      assert Rank(p[i].0) < Rank(p[j].0);
    }
  }

  /** Two largest-first parts with the same pairs are the same parts. */
  lemma {:induction false} LargestFirstUnique(p: Parts, q: Parts)
    requires LargestFirst(p) && LargestFirst(q)
    requires forall e :: e in p <==> e in q
    ensures p == q
  {
    if p != [] && q != [] {
      SameHead(p, q);
      forall e ensures e in p[1..] <==> e in q[1..] {
        if e in p[1..] {
          SameTailMember(p, q, e);
        }
        if e in q[1..] {
          SameTailMember(q, p, e);
        }
      }
      TailLargestFirst(p);
      TailLargestFirst(q);
      LargestFirstUnique(p[1..], q[1..]);
      assert p == [p[0]] + p[1..];
      assert q == [q[0]] + q[1..];
    } else {
      EmptyAlike(p, q);
    }
  }

  /** Parts with the same pairs are empty together. */
  lemma EmptyAlike(p: Parts, q: Parts)
    requires forall e :: e in p <==> e in q
    ensures p == [] <==> q == []
  {
    assert p != [] ==> p[0] in p;
    assert q != [] ==> q[0] in q;
  }

  lemma TailLargestFirst(p: Parts)
    requires LargestFirst(p) && p != []
    ensures LargestFirst(p[1..])
  {
    forall i, j | 0 <= i < j < |p[1..]| ensures Rank(p[1..][i].0) < Rank(p[1..][j].0) {
      assert p[1..][i] == p[i + 1] && p[1..][j] == p[j + 1];
    }
  }

  /** With the same pairs, two largest-first parts start with the same pair, the one of largest unit. */
  lemma SameHead(p: Parts, q: Parts)
    requires LargestFirst(p) && LargestFirst(q) && p != [] && q != []
    requires forall e :: e in p <==> e in q
    ensures p[0] == q[0]
  {
    assert p[0] in q && q[0] in p;
    var i :| 0 <= i < |q| && q[i] == p[0];
    var j :| 0 <= j < |p| && p[j] == q[0];
    assert Rank(q[0].0) <= Rank(q[i].0) && Rank(p[0].0) <= Rank(p[j].0);
    assert Rank(q[0].0) == Rank(q[i].0);
    assert i == 0;
  }

  lemma SameTailMember(p: Parts, q: Parts, e: (Unit, real))
    requires LargestFirst(p) && p != [] && q != [] && p[0] == q[0]
    requires forall e :: e in p <==> e in q
    requires e in p[1..]
    ensures e in q[1..]
  {
    var a :| 0 <= a < |p[1..]| && p[1..][a] == e;
    assert p[a + 1] == e;
    assert Rank(e.0) > Rank(p[0].0);
    assert e in q;
    var b :| 0 <= b < |q| && q[b] == e;
    assert b != 0;
    assert q[1..][b - 1] == e;
  }

  /** Looking a unit up in parts seen as a caller's hash. */
  lemma {:induction false} GetLiftRaw(p: Parts, u: Unit)
    ensures Get(LiftRaw(p), Part(u)) == Lookup(p, u)
    ensures HasKey(LiftRaw(p), Part(u)) <==> Lookup(p, u).Some?
  {
    if p != [] {
      assert LiftRaw(p)[1..] == LiftRaw(p[1..]);
      GetLiftRaw(p[1..], u);
    }
  }

  lemma LiftRawDistinct(p: Parts)
    requires DistinctUnits(p)
    ensures DistinctKeys(LiftRaw(p))
  {
  }

  /** Every key of parts seen as a caller's hash is a unit. */
  lemma LiftRawKeys(p: Parts, k: Key)
    requires !k.Part?
    ensures !HasKey(LiftRaw(p), k)
  {
    HasKeyAt(LiftRaw(p), k);
  }

  /** Distinct parts lift to distinct keyed pairs. */
  lemma LiftInjective(p: Parts, q: Parts)
    requires Lift(p) == Lift(q)
    ensures p == q
  {
    assert |p| == |q|;
    forall i | 0 <= i < |p|
      ensures p[i] == q[i]
    {
      assert Lift(p)[i] == Lift(q)[i];
    }
  }

  /** Reading lifted parts back as parts gives them unchanged. */
  lemma AsPartsLift(p: Parts)
    ensures AsParts(Lift(p)) == Success(p)
  {
    var r := AsParts(Lift(p));
    assert forall i | 0 <= i < |Lift(p)| :: Lift(p)[i].0.Part?;
    LiftInjective(r.value, p);
  }

  /** Largest-first parts are determined by what they hold under each unit. */
  lemma PartsByLookup(p: Parts, q: Parts)
    requires LargestFirst(p) && LargestFirst(q)
    requires forall v: Unit :: Lookup(p, v) == Lookup(q, v)
    ensures p == q
  {
    LargestFirstDistinct(p);
    LargestFirstDistinct(q);
    forall e ensures e in p <==> e in q {
      LookupIsMember(p, e.0, e.1);
      LookupIsMember(q, e.0, e.1);
    }
    LargestFirstUnique(p, q);
  }
}
