/** The FloatRange class and create_mapping of src/spot_it/utils.py. FloatRange keeps its
    ranges in a list field that its own methods replace; every operation that answers a new
    FloatRange allocates one. Each loop is proved against the value semantics of the
    Intervals module, where the properties of the operations are proved. */
module Utils {
  import opened Intervals

  /** The right operand of `+`, `|` and `-`: a bare (lower, upper) tuple or a FloatRange. */
  datatype Operand = Bounds(t: Range) | Ranges(f: FloatRange)

  class FloatRange {
    var ranges: seq<Range>

    /** `FloatRange(*initial_ranges)`: store the ranges, then clean them up. */
    constructor (initial: seq<Range>)
      ensures ranges == Normalize(initial)
    {
      ranges := initial;
      new;
      Cleanup();
    }

    /** `__cleanup`: sort by lower bound, then merge each range into the previous one when
        it starts no later than that one ends. */
    method Cleanup()
      modifies this
      ensures ranges == Normalize(old(ranges))
    {
      var sorted := SortByLo(ranges);
      ranges := sorted;
      if sorted == [] {
        return;
      }
      var merged := [sorted[0]];
      var i := 1;
      while i < |sorted|
        invariant 1 <= i <= |sorted|
        invariant merged == Merged(sorted[..i])
      {
        assert sorted[..i + 1][..i] == sorted[..i];
        var current := sorted[i];
        var previous := merged[|merged| - 1];
        if current.lo <= previous.hi {
          // merge with the previous range
          merged := merged[|merged| - 1 := Range(previous.lo, Max(previous.hi, current.hi))];
          assert merged == MergeStep(Merged(sorted[..i]), current);
        } else {
          merged := merged + [current];
        }
        i := i + 1;
      }
      assert sorted[..i] == sorted;
      ranges := merged;
    }

    /** `random()`, given the value u that random.random() returned. None: the FloatRange
        has no ranges, where the source raises IndexError. */
    method Random(u: real) returns (r: Option<real>)
      requires 0.0 <= u < 1.0
      ensures r == Sample(ranges, u)
      ensures r.None? <==> ranges == []
      ensures WellFormed(ranges) && r.Some? ==> Contains(ranges, r.value)
      ensures WellFormed(ranges) && LoSorted(ranges) && Separated(ranges) && r.Some? ==>
                LengthBelow(ranges, r.value) == Share(u, TotalLength(ranges))
    {
      SampleSpec(ranges, u);
      var total := TotalLength(ranges);
      var rv := Share(u, total);
      for i := 0 to |ranges|
        invariant Walk(ranges, Share(u, total)) == Walk(ranges[i..], rv)
      {
        assert ranges[i..][1..] == ranges[i + 1..];
        var range := ranges[i];
        rv := rv - (range.hi - range.lo);
        if rv <= 0.0 {
          return Some(range.hi + rv);
        }
      }
      if ranges == [] {
        return None;
      }
      return Some(ranges[|ranges| - 1].hi);
    }

    /** `with_buffer(buffer)`: every range widened by buffer on both sides. */
    method WithBuffer(buffer: real) returns (r: FloatRange)
      ensures fresh(r) && r.ranges == Normalize(Buffered(ranges, buffer))
    {
      r := new FloatRange(Buffered(ranges, buffer));
    }

    /** `value in float_range`. */
    method Has(value: real) returns (found: bool)
      ensures found <==> exists i :: 0 <= i < |ranges| && In(ranges[i], value)
      ensures found == Contains(ranges, value)
    {
      ContainsIff(ranges, value);
      for i := 0 to |ranges|
        invariant forall j :: 0 <= j < i ==> !In(ranges[j], value)
      {
        if ranges[i].lo <= value <= ranges[i].hi {
          return true;
        }
      }
      return false;
    }

    /** `bool(float_range)`: at least one range, which for ranges with lower <= upper is the
        same as holding some real. */
    predicate IsNonEmpty()
      reads this
      ensures IsNonEmpty() <==> |ranges| >= 1
      ensures WellFormed(ranges) ==> (IsNonEmpty() <==> exists v :: Contains(ranges, v))
    {
      NonEmptyIffMember(ranges);
      NonEmpty(ranges)
    }

    /** `self + other`: a FloatRange of the ranges of both. */
    method Add(other: Operand) returns (r: FloatRange)
      ensures fresh(r)
      ensures other.Bounds? ==> r.ranges == Normalize(ranges + [other.t])
      ensures other.Ranges? ==> r.ranges == Normalize(ranges + other.f.ranges)
    {
      match other
      case Bounds(t) =>
        r := new FloatRange(ranges + [t]);
      case Ranges(f) =>
        r := new FloatRange(ranges + f.ranges);
    }

    /** `self | other`, the same as `self + other`. */
    method Or(other: Operand) returns (r: FloatRange)
      ensures fresh(r)
      ensures other.Bounds? ==> r.ranges == Normalize(ranges + [other.t])
      ensures other.Ranges? ==> r.ranges == Normalize(ranges + other.f.ranges)
    {
      r := Add(other);
    }

    /** `self - (lower, upper)`: cut the tuple out of every range. */
    method SubBounds(t: Range) returns (r: FloatRange)
      ensures fresh(r) && r.ranges == SubtractRange(ranges, t)
    {
      var result: seq<Range> := [];
      for i := 0 to |ranges|
        invariant result == SubtractPieces(ranges[..i], t)
      {
        assert ranges[..i + 1][..i] == ranges[..i];
        var cur := ranges[i];
        if cur.lo < t.lo < t.hi < cur.hi {
          result := result + [Range(cur.lo, t.lo)];
          result := result + [Range(t.hi, cur.hi)];
        } else if t.lo <= cur.lo < cur.hi <= t.hi {
          continue;
        } else if cur.lo < t.lo <= cur.hi <= t.hi {
          result := result + [Range(cur.lo, t.lo)];
        } else if t.lo <= cur.lo <= t.hi < cur.hi {
          result := result + [Range(t.hi, cur.hi)];
        } else {
          result := result + [cur];
        }
      }
      assert ranges[..|ranges|] == ranges;
      r := new FloatRange(result);
    }

    /** `self - other`: the tuple case, or, for a FloatRange, the tuple difference folded over
        other's ranges from self (functools.reduce), which answers self itself when other has
        no ranges. */
    method Sub(other: Operand) returns (r: FloatRange)
      ensures other.Bounds? ==> fresh(r) && r.ranges == SubtractRange(ranges, other.t)
      ensures other.Ranges? ==> r.ranges == SubtractAll(ranges, other.f.ranges)
      ensures other.Ranges? && other.f.ranges == [] ==> r == this
      ensures other.Ranges? && other.f.ranges != [] ==> fresh(r)
      ensures r == this || fresh(r)
    {
      match other
      case Bounds(t) =>
        r := SubBounds(t);
      case Ranges(f) =>
        var ts := f.ranges;
        r := this;
        for i := 0 to |ts|
          invariant r.ranges == SubtractAll(ranges, ts[..i])
          invariant i == 0 ==> r == this
          invariant i > 0 ==> fresh(r)
          invariant r == this || fresh(r)
        {
          assert ts[..i + 1][..i] == ts[..i];
          r := r.SubBounds(ts[i]);
        }
        assert ts[..|ts|] == ts;
    }

    /** `intersection(other)`: the overlap of every range of self with every range of other. */
    method Intersection(other: FloatRange) returns (r: FloatRange)
      ensures fresh(r) && r.ranges == Intersect(ranges, other.ranges)
    {
      var result: seq<Range> := [];
      var rs, os := ranges, other.ranges;
      for i := 0 to |rs|
        invariant result == IntersectPieces(rs[..i], os)
      {
        assert rs[..i + 1][..i] == rs[..i];
        result := AppendOverlaps(result, rs[i], os);
      }
      assert rs[..|rs|] == rs;
      r := new FloatRange(result);
    }

    /** `self & other`, the same as `self.intersection(other)`. */
    method And(other: FloatRange) returns (r: FloatRange)
      ensures fresh(r) && r.ranges == Intersect(ranges, other.ranges)
    {
      r := Intersection(other);
    }
  }

  /** The inner loop of `intersection`: append to `result` the overlap of `a` with each range
      of `os`, in order, by the four cases of the source. */
  method AppendOverlaps(result: seq<Range>, a: Range, os: seq<Range>) returns (out: seq<Range>)
    ensures out == result + PairPieces(a, os)
  {
    out := result;
    for j := 0 to |os|
      invariant out == result + PairPieces(a, os[..j])
    {
      assert os[..j + 1][..j] == os[..j];
      var b := os[j];
      if b.lo <= a.lo <= a.hi <= b.hi {
        out := out + [a];
      } else if a.lo <= b.lo <= b.hi <= a.hi {
        out := out + [b];
      } else if b.lo <= a.lo <= b.hi <= a.hi {
        out := out + [Range(a.lo, b.hi)];
      } else if a.lo <= b.lo <= a.hi <= b.hi {
        out := out + [Range(b.lo, a.hi)];
      }
    }
    assert os[..|os|] == os;
  }

  // -----------------------------------------------------------------------------------------
  // create_mapping

  /** The dictionary built from the first n pairs, inserted in order. */
  function MappingOf<K(==), V>(keys: seq<K>, values: seq<V>, n: nat): map<K, V>
    requires n <= |keys| && n <= |values|
  {
    if n == 0 then map[] else MappingOf(keys, values, n - 1)[keys[n - 1] := values[n - 1]]
  }

  /** `create_mapping(seq1, seq2)`, that is dict(zip(seq1, seq2)): zip stops at the shorter
      sequence, and a key that occurs twice keeps its last value. */
  function CreateMapping<K(==), V>(keys: seq<K>, values: seq<V>): map<K, V> {
    MappingOf(keys, values, if |keys| <= |values| then |keys| else |values|)
  }

  /** The keys of the first n pairs are the keys of the mapping, and each maps to the value
      paired with its last occurrence among them. */
  lemma {:induction false} MappingOfSpec<K, V>(keys: seq<K>, values: seq<V>, n: nat)
    requires n <= |keys| && n <= |values|
    ensures forall k :: k in MappingOf(keys, values, n) <==> exists i :: 0 <= i < n && keys[i] == k
    ensures forall i :: 0 <= i < n && (forall j :: i < j < n ==> keys[j] != keys[i]) ==>
              MappingOf(keys, values, n)[keys[i]] == values[i]
  {
    if n > 0 {
      MappingOfSpec(keys, values, n - 1);
    }
  }

  /** create_mapping's keys are the keys paired by zip, and each maps to the value paired
      with its last occurrence; with keys all different, the i-th key maps to the i-th value. */
  lemma CreateMappingSpec<K, V>(keys: seq<K>, values: seq<V>)
    ensures var n := if |keys| <= |values| then |keys| else |values|;
      (forall k :: k in CreateMapping(keys, values) <==> exists i :: 0 <= i < n && keys[i] == k) &&
      (forall i :: 0 <= i < n && (forall j :: i < j < n ==> keys[j] != keys[i]) ==>
         CreateMapping(keys, values)[keys[i]] == values[i])
  {
    MappingOfSpec(keys, values, if |keys| <= |values| then |keys| else |values|);
  }

  lemma CreateMappingDistinct<K, V>(keys: seq<K>, values: seq<V>, i: nat)
    requires |keys| <= |values| && i < |keys|
    requires forall a, b :: 0 <= a < b < |keys| ==> keys[a] != keys[b]
    ensures keys[i] in CreateMapping(keys, values) && CreateMapping(keys, values)[keys[i]] == values[i]
  {
    CreateMappingSpec(keys, values);
  }
}
