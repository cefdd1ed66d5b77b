/** The value semantics of FloatRange (src/spot_it/utils.py): a list of closed ranges
    [lower, upper] of reals, its normalization (stable sort by lower bound, then merge
    ranges that overlap or touch), and the results of union, difference, intersection
    and buffering, each with the set of reals it holds. Bounds are exact reals. */
module Intervals {

  /** The source's tuple (lower, upper), read as the closed range [lo, hi]. */
  datatype Range = Range(lo: real, hi: real)

  predicate In(r: Range, v: real) {
    r.lo <= v <= r.hi
  }

  function Max(a: real, b: real): real {
    if a >= b then a else b
  }

  /** `v in float_range`: scan the ranges for one holding v (__contains__). */
  function Contains(rs: seq<Range>, v: real): bool {
    if rs == [] then false else In(rs[0], v) || Contains(rs[1..], v)
  }

  /** `bool(float_range)`: there is at least one range (__bool__). */
  predicate NonEmpty(rs: seq<Range>) {
    |rs| >= 1
  }

  /** Every range has lo <= hi. */
  predicate WellFormed(rs: seq<Range>) {
    forall i :: 0 <= i < |rs| ==> rs[i].lo <= rs[i].hi
  }

  /** Every range has lo < hi: none is a single point (or empty). */
  predicate Proper(rs: seq<Range>) {
    forall i :: 0 <= i < |rs| ==> rs[i].lo < rs[i].hi
  }

  predicate LoSorted(rs: seq<Range>) {
    forall i, j :: 0 <= i < j < |rs| ==> rs[i].lo <= rs[j].lo
  }

  /** Consecutive ranges are strictly apart: each ends before the next begins. */
  predicate Separated(rs: seq<Range>) {
    forall i :: 0 <= i < |rs| - 1 ==> rs[i].hi < rs[i + 1].lo
  }

  // ---------------------------------------------------------------------------------------
  // Membership

  lemma {:induction false} ContainsIff(rs: seq<Range>, v: real)
    ensures Contains(rs, v) <==> exists i :: 0 <= i < |rs| && In(rs[i], v)
  {
    if rs != [] {
      ContainsIff(rs[1..], v);
      if exists i :: 0 <= i < |rs| && In(rs[i], v) {
        var i :| 0 <= i < |rs| && In(rs[i], v);
        if i > 0 { assert rs[1..][i - 1] == rs[i]; }
      }
    }
  }

  lemma ContainsByMember(rs: seq<Range>, v: real)
    ensures Contains(rs, v) <==> exists r :: r in rs && In(r, v)
  {
    ContainsIff(rs, v);
  }

  lemma {:induction false} ContainsConcat(a: seq<Range>, b: seq<Range>, v: real)
    ensures Contains(a + b, v) <==> Contains(a, v) || Contains(b, v)
  {
    if a != [] {
      assert (a + b)[0] == a[0];
      assert (a + b)[1..] == a[1..] + b;
      ContainsConcat(a[1..], b, v);
    } else {
      assert a + b == b;
    }
  }

  lemma ContainsOne(r: Range, v: real)
    ensures Contains([r], v) <==> In(r, v)
  {
    assert [r][1..] == [];
  }

  lemma ContainsPermutation(a: seq<Range>, b: seq<Range>, v: real)
    requires multiset(a) == multiset(b)
    ensures Contains(a, v) <==> Contains(b, v)
  {
    ContainsByMember(a, v);
    ContainsByMember(b, v);
    forall r ensures r in a <==> r in b {
      assert r in a <==> r in multiset(a);
      assert r in b <==> r in multiset(b);
    }
  }

  /** With lo <= hi throughout, `bool(r)` holds exactly when r holds some real. */
  lemma NonEmptyIffMember(rs: seq<Range>)
    ensures WellFormed(rs) ==> (NonEmpty(rs) <==> exists v :: Contains(rs, v))
  {
    if NonEmpty(rs) && WellFormed(rs) {
      ContainsIff(rs, rs[0].lo);
    }
  }

  // ---------------------------------------------------------------------------------------
  // Sorting by lower bound (Python's sorted, which is stable)

  /** Insert r before the first range whose lower bound is not below r's. */
  function Insert(r: Range, s: seq<Range>): seq<Range> {
    if s == [] || r.lo <= s[0].lo then [r] + s else [s[0]] + Insert(r, s[1..])
  }

  /** Stable insertion sort by lower bound: ranges with equal lower bounds keep their order. */
  function SortByLo(s: seq<Range>): seq<Range> {
    if s == [] then [] else Insert(s[0], SortByLo(s[1..]))
  }

  /** A range no higher than everything in a sorted list can go in front of it. */
  lemma SortedCons(a: Range, t: seq<Range>)
    requires LoSorted(t) && forall x :: x in t ==> a.lo <= x.lo
    ensures LoSorted([a] + t)
  {
    var u := [a] + t;
    forall i, j | 0 <= i < j < |u| ensures u[i].lo <= u[j].lo {
      assert u[j] == t[j - 1];
      if i > 0 { assert u[i] == t[i - 1]; }
    }
  }

  lemma {:induction false} InsertSorted(r: Range, s: seq<Range>)
    requires LoSorted(s)
    ensures LoSorted(Insert(r, s)) && multiset(Insert(r, s)) == multiset{r} + multiset(s)
  {
    if s == [] || r.lo <= s[0].lo {
      SortedCons(r, s);
    } else {
      var t := Insert(r, s[1..]);
      assert Insert(r, s) == [s[0]] + t;
      InsertSorted(r, s[1..]);
      assert s == [s[0]] + s[1..];
      assert multiset(s) == multiset{s[0]} + multiset(s[1..]);
      forall x | x in t ensures s[0].lo <= x.lo {
        assert x in multiset(t);
      }
      SortedCons(s[0], t);
    }
  }

  lemma {:induction false} SortByLoSpec(s: seq<Range>)
    ensures LoSorted(SortByLo(s)) && multiset(SortByLo(s)) == multiset(s)
  {
    if s != [] {
      SortByLoSpec(s[1..]);
      InsertSorted(s[0], SortByLo(s[1..]));
      assert s == [s[0]] + s[1..];
    }
  }

  /** Sorting an already sorted list changes nothing. */
  lemma {:induction false} SortByLoSorted(s: seq<Range>)
    requires LoSorted(s)
    ensures SortByLo(s) == s
  {
    if s != [] {
      SortByLoSorted(s[1..]);
      assert s == [s[0]] + s[1..];
    }
  }

  // ---------------------------------------------------------------------------------------
  // Merging (the loop of __cleanup)

  /** One step of the merge loop: extend the last range when `cur` starts no later than it
      ends, otherwise append `cur`. */
  function MergeStep(acc: seq<Range>, cur: Range): seq<Range>
    requires |acc| > 0
  {
    var previous := acc[|acc| - 1];
    if cur.lo <= previous.hi then acc[..|acc| - 1] + [Range(previous.lo, Max(previous.hi, cur.hi))]
    else acc + [cur]
  }

  /** The merge loop run over all of s, left to right. */
  function Merged(s: seq<Range>): (m: seq<Range>)
    ensures |m| <= |s| && (|s| > 0 ==> |m| > 0)
  {
    if |s| <= 1 then s else MergeStep(Merged(s[..|s| - 1]), s[|s| - 1])
  }

  /** What __cleanup leaves in `ranges`. */
  function Normalize(rs: seq<Range>): seq<Range> {
    Merged(SortByLo(rs))
  }

  lemma {:induction false} MergedLoBound(s: seq<Range>, c: real)
    requires forall j :: 0 <= j < |s| ==> s[j].lo <= c
    ensures forall i :: 0 <= i < |Merged(s)| ==> Merged(s)[i].lo <= c
  {
    if |s| > 1 {
      MergedLoBound(s[..|s| - 1], c);
    }
  }

  lemma MergeStepContains(acc: seq<Range>, cur: Range, v: real)
    requires |acc| > 0 && acc[|acc| - 1].lo <= cur.lo
    ensures Contains(MergeStep(acc, cur), v) <==> Contains(acc, v) || In(cur, v)
  {
    var k := |acc| - 1;
    var previous := acc[k];
    assert acc == acc[..k] + [previous];
    ContainsConcat(acc[..k], [previous], v);
    ContainsOne(previous, v);
    ContainsOne(cur, v);
    if cur.lo <= previous.hi {
      var merged := Range(previous.lo, Max(previous.hi, cur.hi));
      ContainsConcat(acc[..k], [merged], v);
      ContainsOne(merged, v);
    } else {
      ContainsConcat(acc, [cur], v);
    }
  }

  /** One merge step keeps the list sorted, apart, and its ranges lo <= hi (or lo < hi). */
  lemma MergeStepSpec(acc: seq<Range>, cur: Range)
    requires |acc| > 0 && LoSorted(acc) && Separated(acc)
    requires forall i :: 0 <= i < |acc| ==> acc[i].lo <= cur.lo
    ensures LoSorted(MergeStep(acc, cur)) && Separated(MergeStep(acc, cur))
    ensures WellFormed(acc) && cur.lo <= cur.hi ==> WellFormed(MergeStep(acc, cur))
    ensures Proper(acc) && cur.lo < cur.hi ==> Proper(MergeStep(acc, cur))
  {
    var k := |acc| - 1;
    var previous := acc[k];
    if cur.lo <= previous.hi {
      var m := MergeStep(acc, cur);
      assert m == acc[..k] + [Range(previous.lo, Max(previous.hi, cur.hi))];
      forall i | 0 <= i < k ensures m[i] == acc[i] {
      }
    } else {
      assert MergeStep(acc, cur) == acc + [cur];
    }
  }

  /** Dropping the last range of a sorted list leaves it sorted, below that last range. */
  lemma SortedInit(s: seq<Range>)
    requires LoSorted(s) && |s| > 0
    ensures LoSorted(s[..|s| - 1])
    ensures forall j :: 0 <= j < |s| - 1 ==> s[j].lo <= s[|s| - 1].lo
  {
  }

  lemma {:induction false} MergedSpec(s: seq<Range>)
    requires LoSorted(s)
    ensures LoSorted(Merged(s)) && Separated(Merged(s))
    ensures WellFormed(s) ==> WellFormed(Merged(s))
    ensures Proper(s) ==> Proper(Merged(s))
  {
    if |s| > 1 {
      var init, cur := s[..|s| - 1], s[|s| - 1];
      SortedInit(s);
      MergedSpec(init);
      MergedLoBound(init, cur.lo);
      MergeStepSpec(Merged(init), cur);
    }
  }

  lemma {:induction false} MergedContains(s: seq<Range>, v: real)
    requires LoSorted(s)
    ensures Contains(Merged(s), v) <==> Contains(s, v)
  {
    if |s| > 1 {
      var init, cur := s[..|s| - 1], s[|s| - 1];
      SortedInit(s);
      MergedContains(init, v);
      MergedLoBound(init, cur.lo);
      MergeStepContains(Merged(init), cur, v);
      assert s == init + [cur];
      ContainsConcat(init, [cur], v);
      ContainsOne(cur, v);
    }
  }

  /** Merging a list whose ranges are already apart changes nothing. */
  lemma {:induction false} MergedSeparated(s: seq<Range>)
    requires Separated(s)
    ensures Merged(s) == s
  {
    if |s| > 1 {
      var init := s[..|s| - 1];
      MergedSeparated(init);
      assert init + [s[|s| - 1]] == s;
    }
  }

  /** After normalization the ranges are sorted by lower bound and strictly apart, the same
      reals are held as before, lo <= hi (and lo < hi) survive, and a non-empty list stays
      non-empty. */
  lemma NormalizeSpec(rs: seq<Range>)
    ensures LoSorted(Normalize(rs)) && Separated(Normalize(rs))
    ensures forall v :: Contains(Normalize(rs), v) <==> Contains(rs, v)
    ensures WellFormed(rs) ==> WellFormed(Normalize(rs))
    ensures Proper(rs) ==> Proper(Normalize(rs))
    ensures NonEmpty(Normalize(rs)) <==> NonEmpty(rs)
  {
    var sorted := SortByLo(rs);
    SortByLoSpec(rs);
    MergedSpec(sorted);
    forall v ensures Contains(Normalize(rs), v) <==> Contains(rs, v) {
      MergedContains(sorted, v);
      ContainsPermutation(sorted, rs, v);
    }
    assert |sorted| == |rs| by {
      assert |multiset(sorted)| == |multiset(rs)|;
    }
    forall i | 0 <= i < |sorted| ensures sorted[i] in multiset(rs) {
      assert sorted[i] in multiset(sorted);
    }
  }

  /** `v in FloatRange(*rs)` exactly when one of the given ranges holds v. */
  lemma ConstructedContains(rs: seq<Range>, v: real)
    ensures Contains(Normalize(rs), v) <==> exists i :: 0 <= i < |rs| && In(rs[i], v)
  {
    NormalizeSpec(rs);
    ContainsIff(rs, v);
  }

  /** Normalizing twice is normalizing once. */
  lemma NormalizeIdempotent(rs: seq<Range>)
    ensures Normalize(Normalize(rs)) == Normalize(rs)
  {
    var m := Normalize(rs);
    NormalizeSpec(rs);
    SortByLoSorted(m);
    MergedSeparated(m);
  }

  /** The construction examples of the source's tests. */
  lemma NormalizeExamples()
    ensures Normalize([Range(0.0, 1.1), Range(2.3, 3.0), Range(4.1, 5.12)])
         == [Range(0.0, 1.1), Range(2.3, 3.0), Range(4.1, 5.12)]
    ensures Normalize([Range(0.0, 2.5), Range(1.0, 3.0), Range(4.0, 5.0)])
         == [Range(0.0, 3.0), Range(4.0, 5.0)]
    ensures Normalize([Range(0.0, 0.7), Range(0.7, 2.0)]) == [Range(0.0, 2.0)]
    ensures Normalize([Range(0.0, 0.0)]) == [Range(0.0, 0.0)]
  {
    NormalizeKeepsApart();
    NormalizeMergesOverlap();
    NormalizeMergesTouching();
    SortByLoSorted([Range(0.0, 0.0)]);
  }

  lemma NormalizeKeepsApart()
    ensures Normalize([Range(0.0, 1.1), Range(2.3, 3.0), Range(4.1, 5.12)])
         == [Range(0.0, 1.1), Range(2.3, 3.0), Range(4.1, 5.12)]
  {
    var a := [Range(0.0, 1.1), Range(2.3, 3.0), Range(4.1, 5.12)];
    SortByLoSorted(a);
    MergedSeparated(a);
  }

  lemma NormalizeMergesOverlap()
    ensures Normalize([Range(0.0, 2.5), Range(1.0, 3.0), Range(4.0, 5.0)])
         == [Range(0.0, 3.0), Range(4.0, 5.0)]
  {
    var b := [Range(0.0, 2.5), Range(1.0, 3.0), Range(4.0, 5.0)];
    SortByLoSorted(b);
    assert b[..2][..1] == [Range(0.0, 2.5)];
    assert Merged(b[..2]) == [Range(0.0, 3.0)];
  }

  lemma NormalizeMergesTouching()
    ensures Normalize([Range(0.0, 0.7), Range(0.7, 2.0)]) == [Range(0.0, 2.0)]
  {
    var c := [Range(0.0, 0.7), Range(0.7, 2.0)];
    SortByLoSorted(c);
    assert c[..1] == [Range(0.0, 0.7)];
    assert Merged(c) == MergeStep([Range(0.0, 0.7)], Range(0.7, 2.0));
    assert MergeStep([Range(0.0, 0.7)], Range(0.7, 2.0)) == [] + [Range(0.0, 2.0)];
  }

  // ---------------------------------------------------------------------------------------
  // Union

  /** `a + b` and `a | b` hold exactly what a or b holds. */
  lemma UnionContains(a: seq<Range>, b: seq<Range>, v: real)
    ensures Contains(Normalize(a + b), v) <==> Contains(a, v) || Contains(b, v)
  {
    NormalizeSpec(a + b);
    ContainsConcat(a, b, v);
  }

  // ---------------------------------------------------------------------------------------
  // Difference

  /** One iteration of the loop of `__sub__` with a tuple t = (lower, upper): the pieces of
      `cur` that are kept. */
  function Cut(cur: Range, t: Range): seq<Range> {
    if cur.lo < t.lo < t.hi < cur.hi then [Range(cur.lo, t.lo), Range(t.hi, cur.hi)]
    else if t.lo <= cur.lo < cur.hi <= t.hi then []
    else if cur.lo < t.lo <= cur.hi <= t.hi then [Range(cur.lo, t.lo)]
    else if t.lo <= cur.lo <= t.hi < cur.hi then [Range(t.hi, cur.hi)]
    else [cur]
  }

  /** The pieces the loop collects into `result_ranges`, in order. */
  function SubtractPieces(rs: seq<Range>, t: Range): seq<Range> {
    if rs == [] then [] else SubtractPieces(rs[..|rs| - 1], t) + Cut(rs[|rs| - 1], t)
  }

  /** `float_range - (lower, upper)`. */
  function SubtractRange(rs: seq<Range>, t: Range): seq<Range> {
    Normalize(SubtractPieces(rs, t))
  }

  /** `float_range - other`: functools.reduce of the tuple difference over other's ranges. */
  function SubtractAll(rs: seq<Range>, ts: seq<Range>): seq<Range> {
    if ts == [] then rs else SubtractRange(SubtractAll(rs, ts[..|ts| - 1]), ts[|ts| - 1])
  }

  lemma CutSpec(cur: Range, t: Range, v: real)
    ensures Contains(Cut(cur, t), v) ==> In(cur, v)
    ensures In(cur, v) && (v < t.lo || v > t.hi) ==> Contains(Cut(cur, t), v)
    ensures cur.lo < cur.hi && t.lo < v < t.hi ==> !Contains(Cut(cur, t), v)
    ensures cur.lo < cur.hi ==> Proper(Cut(cur, t))
  {
    var a, b := Range(cur.lo, t.lo), Range(t.hi, cur.hi);
    ContainsConcat([a], [b], v);
    assert [a] + [b] == [a, b];
    ContainsOne(a, v);
    ContainsOne(b, v);
    ContainsOne(cur, v);
  }

  lemma ProperConcat(a: seq<Range>, b: seq<Range>)
    requires Proper(a) && Proper(b)
    ensures Proper(a + b)
  {
    forall i | 0 <= i < |a + b| ensures (a + b)[i].lo < (a + b)[i].hi {
      if i >= |a| {
        assert (a + b)[i] == b[i - |a|];
      }
    }
  }

  lemma {:induction false} SubtractPiecesSpec(rs: seq<Range>, t: Range, v: real)
    ensures Contains(SubtractPieces(rs, t), v) ==> Contains(rs, v)
    ensures Contains(rs, v) && (v < t.lo || v > t.hi) ==> Contains(SubtractPieces(rs, t), v)
    ensures Proper(rs) && t.lo < v < t.hi ==> !Contains(SubtractPieces(rs, t), v)
    ensures Proper(rs) ==> Proper(SubtractPieces(rs, t))
  {
    if rs != [] {
      var init, last := rs[..|rs| - 1], rs[|rs| - 1];
      var kept, cut := SubtractPieces(init, t), Cut(last, t);
      assert SubtractPieces(rs, t) == kept + cut;
      SubtractPiecesSpec(init, t, v);
      CutSpec(last, t, v);
      assert rs == init + [last];
      ContainsConcat(init, [last], v);
      ContainsOne(last, v);
      ContainsConcat(kept, cut, v);
      if Proper(rs) {
        assert Proper(init) by {
          forall i | 0 <= i < |init| ensures init[i].lo < init[i].hi {
            assert init[i] == rs[i];
          }
        }
        ProperConcat(kept, cut);
      }
    }
  }

  /** Subtracting (l, u): reals below l or above u stay, the result holds nothing the
      original did not, and, when no range is a single point, no real strictly between l
      and u remains. */
  lemma SubtractRangeSpec(rs: seq<Range>, t: Range, v: real)
    ensures Contains(SubtractRange(rs, t), v) ==> Contains(rs, v)
    ensures Contains(rs, v) && (v < t.lo || v > t.hi) ==> Contains(SubtractRange(rs, t), v)
    ensures Proper(rs) && t.lo < v < t.hi ==> !Contains(SubtractRange(rs, t), v)
    ensures Proper(rs) ==> Proper(SubtractRange(rs, t))
  {
    SubtractPiecesSpec(rs, t, v);
    NormalizeSpec(SubtractPieces(rs, t));
  }

  /** A real strictly between lower and upper survives one iteration only when `cur` is the
      single-point range at that real, which falls to the last ("keep") case. */
  lemma CutInside(cur: Range, t: Range, v: real)
    ensures Contains(Cut(cur, t), v) && t.lo < v < t.hi ==> cur == Range(v, v)
  {
    var a, b := Range(cur.lo, t.lo), Range(t.hi, cur.hi);
    ContainsConcat([a], [b], v);
    assert [a] + [b] == [a, b];
    ContainsOne(a, v);
    ContainsOne(b, v);
    ContainsOne(cur, v);
  }

  lemma {:induction false} SubtractPiecesInside(rs: seq<Range>, t: Range, v: real)
    ensures Contains(SubtractPieces(rs, t), v) && t.lo < v < t.hi ==> Range(v, v) in rs
  {
    if rs != [] {
      var init, last := rs[..|rs| - 1], rs[|rs| - 1];
      assert SubtractPieces(rs, t) == SubtractPieces(init, t) + Cut(last, t);
      SubtractPiecesInside(init, t, v);
      CutInside(last, t, v);
      ContainsConcat(SubtractPieces(init, t), Cut(last, t), v);
      assert rs == init + [last];
    }
  }

  /** The exact effect of `r - (l, u)` strictly between l and u: a real there remains only
      when the single-point range [v, v] was one of r's ranges. */
  lemma SubtractRangeInside(rs: seq<Range>, t: Range, v: real)
    ensures Contains(SubtractRange(rs, t), v) && t.lo < v < t.hi ==> Range(v, v) in rs
  {
    SubtractPiecesInside(rs, t, v);
    NormalizeSpec(SubtractPieces(rs, t));
  }

  /** Every branch of one iteration leaves a single-point range whole. */
  lemma CutKeepsPoint(v: real, t: Range)
    ensures Cut(Range(v, v), t) == [Range(v, v)]
  {
  }

  lemma {:induction false} SubtractPiecesKeepsPoint(rs: seq<Range>, t: Range, v: real)
    ensures Range(v, v) in rs ==> Contains(SubtractPieces(rs, t), v)
  {
    if rs != [] && Range(v, v) in rs {
      var init, last := rs[..|rs| - 1], rs[|rs| - 1];
      assert rs == init + [last];
      assert SubtractPieces(rs, t) == SubtractPieces(init, t) + Cut(last, t);
      ContainsConcat(SubtractPieces(init, t), Cut(last, t), v);
      if last == Range(v, v) {
        CutKeepsPoint(v, t);
        ContainsOne(last, v);
      } else {
        assert Range(v, v) in init;
        SubtractPiecesKeepsPoint(init, t, v);
      }
    }
  }

  /** The converse of `SubtractRangeInside`: a single-point range of r always survives
      `r - (l, u)`, wherever it lies. */
  lemma SubtractRangeKeepsPoint(rs: seq<Range>, t: Range, v: real)
    ensures Range(v, v) in rs ==> Contains(SubtractRange(rs, t), v)
  {
    SubtractPiecesKeepsPoint(rs, t, v);
    NormalizeSpec(SubtractPieces(rs, t));
  }

  /** At the bounds l and u the branch decides: subtracting (0.5, 0.6) from [0.5, 0.6] drops
      0.5 (the "drop" case), while from [0, 1] it keeps 0.5 (see `SubtractExamples`). */
  lemma SubtractRangeDropsBound()
    ensures SubtractRange([Range(0.5, 0.6)], Range(0.5, 0.6)) == []
  {
    var s := [Range(0.5, 0.6)];
    assert s[..0] == [];
    assert SubtractPieces(s, Range(0.5, 0.6)) == [];
  }

  /** Subtracting a whole FloatRange: the result is inside the original, keeps every real
      outside all subtracted ranges, and, when no range is a single point, drops every real
      strictly inside one of them. */
  lemma {:induction false} SubtractAllSpec(rs: seq<Range>, ts: seq<Range>, v: real)
    ensures Contains(SubtractAll(rs, ts), v) ==> Contains(rs, v)
    ensures Contains(rs, v) && (forall i :: 0 <= i < |ts| ==> v < ts[i].lo || v > ts[i].hi) ==>
              Contains(SubtractAll(rs, ts), v)
    ensures Proper(rs) && (exists i :: 0 <= i < |ts| && ts[i].lo < v < ts[i].hi) ==>
              !Contains(SubtractAll(rs, ts), v)
    ensures Proper(rs) ==> Proper(SubtractAll(rs, ts))
  {
    if ts != [] {
      var init, last := ts[..|ts| - 1], ts[|ts| - 1];
      var before := SubtractAll(rs, init);
      assert SubtractAll(rs, ts) == SubtractRange(before, last);
      SubtractAllSpec(rs, init, v);
      SubtractRangeSpec(before, last, v);
      if Contains(rs, v) && (forall i :: 0 <= i < |ts| ==> v < ts[i].lo || v > ts[i].hi) {
        forall i | 0 <= i < |init| ensures v < init[i].lo || v > init[i].hi {
          assert init[i] == ts[i];
        }
      }
      if Proper(rs) && (exists i :: 0 <= i < |ts| && ts[i].lo < v < ts[i].hi) {
        var i :| 0 <= i < |ts| && ts[i].lo < v < ts[i].hi;
        if i < |ts| - 1 {
          assert init[i] == ts[i];
        }
      }
    }
  }

  /** The difference example: [0, 1] minus (0.5, 0.6) is [0, 0.5] and [0.6, 1]; minus a
      range that covers it, it is empty. */
  lemma SubtractExamples()
    ensures SubtractRange([Range(0.0, 1.0)], Range(0.5, 0.6)) == [Range(0.0, 0.5), Range(0.6, 1.0)]
    ensures SubtractRange([Range(0.0, 1.0)], Range(-1.0, 2.0)) == []
  {
    var s := [Range(0.0, 1.0)];
    assert s[..0] == [];
    var pieces := [Range(0.0, 0.5), Range(0.6, 1.0)];
    assert Cut(Range(0.0, 1.0), Range(0.5, 0.6)) == pieces;
    assert SubtractPieces(s, Range(0.5, 0.6)) == [] + pieces;
    SortByLoSorted(pieces);
    MergedSeparated(pieces);
    assert Cut(Range(0.0, 1.0), Range(-1.0, 2.0)) == [];
    assert SubtractPieces(s, Range(-1.0, 2.0)) == [];
  }

  /** A single-point range strictly inside the subtracted interval is kept: the "drop" case
      of `__sub__` requires cur_lower < cur_upper. */
  lemma SubtractKeepsInnerPoint()
    ensures Contains(SubtractRange([Range(0.5, 0.5)], Range(0.0, 1.0)), 0.5)
  {
    var s := [Range(0.5, 0.5)];
    assert s[..0] == [];
    assert SubtractPieces(s, Range(0.0, 1.0)) == s;
    SortByLoSorted(s);
    ContainsOne(Range(0.5, 0.5), 0.5);
  }

  // ---------------------------------------------------------------------------------------
  // Intersection

  /** The overlap of a range of self with a range of other, by the four cases of the loop of
      `intersection`. */
  function Overlap(a: Range, b: Range): seq<Range> {
    if b.lo <= a.lo <= a.hi <= b.hi then [a]
    else if a.lo <= b.lo <= b.hi <= a.hi then [b]
    else if b.lo <= a.lo <= b.hi <= a.hi then [Range(a.lo, b.hi)]
    else if a.lo <= b.lo <= a.hi <= b.hi then [Range(b.lo, a.hi)]
    else []
  }

  /** The inner loop: overlaps of a with each range of os, in order. */
  function PairPieces(a: Range, os: seq<Range>): seq<Range> {
    if os == [] then [] else PairPieces(a, os[..|os| - 1]) + Overlap(a, os[|os| - 1])
  }

  /** The outer loop: for each range of rs, its overlaps with all of os. */
  function IntersectPieces(rs: seq<Range>, os: seq<Range>): seq<Range> {
    if rs == [] then [] else IntersectPieces(rs[..|rs| - 1], os) + PairPieces(rs[|rs| - 1], os)
  }

  /** `a.intersection(b)` and `a & b`. */
  function Intersect(rs: seq<Range>, os: seq<Range>): seq<Range> {
    Normalize(IntersectPieces(rs, os))
  }

  /** Each of the four cases needs lo <= hi on both ranges, so an inverted range overlaps
      nothing, which matches its holding no real. */
  lemma OverlapSpec(a: Range, b: Range, v: real)
    ensures Contains(Overlap(a, b), v) <==> In(a, v) && In(b, v)
  {
    ContainsOne(a, v);
    ContainsOne(b, v);
    ContainsOne(Range(a.lo, b.hi), v);
    ContainsOne(Range(b.lo, a.hi), v);
  }

  lemma {:induction false} PairPiecesSpec(a: Range, os: seq<Range>, v: real)
    ensures Contains(PairPieces(a, os), v) <==> In(a, v) && Contains(os, v)
  {
    if os != [] {
      var init, last := os[..|os| - 1], os[|os| - 1];
      PairPiecesSpec(a, init, v);
      OverlapSpec(a, last, v);
      ContainsConcat(PairPieces(a, init), Overlap(a, last), v);
      assert os == init + [last];
      ContainsConcat(init, [last], v);
      ContainsOne(last, v);
    }
  }

  lemma {:induction false} IntersectPiecesSpec(rs: seq<Range>, os: seq<Range>, v: real)
    ensures Contains(IntersectPieces(rs, os), v) <==> Contains(rs, v) && Contains(os, v)
  {
    if rs != [] {
      var init, last := rs[..|rs| - 1], rs[|rs| - 1];
      IntersectPiecesSpec(init, os, v);
      PairPiecesSpec(last, os, v);
      ContainsConcat(IntersectPieces(init, os), PairPieces(last, os), v);
      assert rs == init + [last];
      ContainsConcat(init, [last], v);
      ContainsOne(last, v);
    }
  }

  /** The intersection holds exactly the reals both operands hold (a shared endpoint
      included), inverted ranges too. */
  lemma IntersectContains(rs: seq<Range>, os: seq<Range>, v: real)
    ensures Contains(Intersect(rs, os), v) <==> Contains(rs, v) && Contains(os, v)
  {
    IntersectPiecesSpec(rs, os, v);
    NormalizeSpec(IntersectPieces(rs, os));
  }

  // ---------------------------------------------------------------------------------------
  // Buffering

  /** Each range widened by `buffer` on both sides (the generator of `with_buffer`). */
  function Buffered(rs: seq<Range>, buffer: real): (r: seq<Range>)
    ensures |r| == |rs|
  {
    seq(|rs|, i requires 0 <= i < |rs| => Range(rs[i].lo - buffer, rs[i].hi + buffer))
  }

  /** For lo <= hi and a buffer b >= 0, `with_buffer(b)` holds exactly the reals within
      distance b of a real of the original. */
  lemma WithBufferContains(rs: seq<Range>, b: real, v: real)
    requires WellFormed(rs) && b >= 0.0
    ensures Contains(Normalize(Buffered(rs, b)), v) <==> exists w :: Contains(rs, w) && v - b <= w <= v + b
  {
    var wide := Buffered(rs, b);
    NormalizeSpec(wide);
    ContainsIff(wide, v);
    if Contains(wide, v) {
      var i :| 0 <= i < |wide| && In(wide[i], v);
      var w := if v < rs[i].lo then rs[i].lo else if v > rs[i].hi then rs[i].hi else v;
      ContainsIff(rs, w);
    }
    if exists w :: Contains(rs, w) && v - b <= w <= v + b {
      var w :| Contains(rs, w) && v - b <= w <= v + b;
      ContainsIff(rs, w);
      var i :| 0 <= i < |rs| && In(rs[i], w);
      assert In(wide[i], v);
    }
  }

  /** The buffering examples of the source's tests: gaps narrower than twice the buffer
      close up. */
  lemma WithBufferExamples()
    ensures Normalize(Buffered([Range(0.0, 1.0)], 0.1)) == [Range(-0.1, 1.1)]
    ensures Normalize(Buffered([Range(0.0, 1.0), Range(2.0, 3.0)], 0.1)) == [Range(-0.1, 1.1), Range(1.9, 3.1)]
    ensures Normalize(Buffered([Range(0.0, 0.5), Range(0.6, 0.7)], 0.1)) == [Range(-0.1, 0.8)]
    ensures Normalize(Buffered([Range(100.5, 100.7)], 0.1)) == [Range(100.4, 100.8)]
  {
    BufferShort();
    BufferOne();
    BufferApart();
    BufferMerges();
  }

  lemma BufferOne()
    ensures Normalize(Buffered([Range(0.0, 1.0)], 0.1)) == [Range(-0.1, 1.1)]
  {
    var a := Buffered([Range(0.0, 1.0)], 0.1);
    assert a == [Range(-0.1, 1.1)];
    SortByLoSorted(a);
  }

  lemma BufferShort()
    ensures Normalize(Buffered([Range(100.5, 100.7)], 0.1)) == [Range(100.4, 100.8)]
  {
    var a := Buffered([Range(100.5, 100.7)], 0.1);
    assert a == [Range(100.4, 100.8)];
    SortByLoSorted(a);
  }

  lemma BufferApart()
    ensures Normalize(Buffered([Range(0.0, 1.0), Range(2.0, 3.0)], 0.1)) == [Range(-0.1, 1.1), Range(1.9, 3.1)]
  {
    var b := Buffered([Range(0.0, 1.0), Range(2.0, 3.0)], 0.1);
    assert b == [Range(-0.1, 1.1), Range(1.9, 3.1)];
    SortByLoSorted(b);
    MergedSeparated(b);
  }

  lemma BufferMerges()
    ensures Normalize(Buffered([Range(0.0, 0.5), Range(0.6, 0.7)], 0.1)) == [Range(-0.1, 0.8)]
  {
    var c := Buffered([Range(0.0, 0.5), Range(0.6, 0.7)], 0.1);
    assert c == [Range(-0.1, 0.6), Range(0.5, 0.8)];
    SortByLoSorted(c);
    assert c[..1] == [Range(-0.1, 0.6)];
    assert Merged(c) == MergeStep([Range(-0.1, 0.6)], Range(0.5, 0.8));
    assert MergeStep([Range(-0.1, 0.6)], Range(0.5, 0.8)) == [] + [Range(-0.1, 0.8)];
  }

  // ---------------------------------------------------------------------------------------
  // Sampling, for `random`

  datatype Option<T> = None | Some(value: T)

  /** sum(upper - lower for lower, upper in ranges). */
  function TotalLength(rs: seq<Range>): real {
    if rs == [] then 0.0 else (rs[0].hi - rs[0].lo) + TotalLength(rs[1..])
  }

  /** The loop of `random` from running value rv: subtract each range's length in turn and
      stop at the first range that brings the value to zero or below, answering its upper
      bound plus that (non-positive) value. None: the loop ran out of ranges. */
  function Walk(rs: seq<Range>, rv: real): Option<real> {
    if rs == [] then None
    else
      var rest := rv - (rs[0].hi - rs[0].lo);
      if rest <= 0.0 then Some(rs[0].hi + rest) else Walk(rs[1..], rest)
  }

  /** `random.random() * total_length`. */
  function Share(u: real, total: real): real {
    u * total
  }

  /** `random()` when random.random() returned u; None stands for the IndexError raised by
      `self.ranges[-1]` on a FloatRange without ranges. */
  function Sample(rs: seq<Range>, u: real): Option<real> {
    if rs == [] then None
    else
      match Walk(rs, Share(u, TotalLength(rs)))
      case Some(x) => Some(x)
      case None => Some(rs[|rs| - 1].hi)
  }

  /** How much of r lies at or below x. */
  function Clip(r: Range, x: real): real {
    if x <= r.lo then 0.0 else if r.hi <= x then r.hi - r.lo else x - r.lo
  }

  /** How much of the ranges lies at or below x: the distribution function of the uniform
      measure on them, before scaling. */
  function LengthBelow(rs: seq<Range>, x: real): real {
    if rs == [] then 0.0 else Clip(rs[0], x) + LengthBelow(rs[1..], x)
  }

  lemma {:induction false} TotalLengthNonNegative(rs: seq<Range>)
    requires WellFormed(rs)
    ensures TotalLength(rs) >= 0.0
  {
    if rs != [] {
      TotalLengthNonNegative(rs[1..]);
    }
  }

  /** Started at a value between 0 and the total length, the loop stops inside a range. */
  lemma {:induction false} WalkInside(rs: seq<Range>, rv: real)
    requires WellFormed(rs) && rs != [] && 0.0 <= rv <= TotalLength(rs)
    ensures Walk(rs, rv).Some? && Contains(rs, Walk(rs, rv).value)
  {
    var rest := rv - (rs[0].hi - rs[0].lo);
    if rest > 0.0 {
      WalkInside(rs[1..], rest);
    }
  }

  lemma {:induction false} LengthBelowNothing(rs: seq<Range>, x: real)
    requires forall i :: 0 <= i < |rs| ==> x <= rs[i].lo
    ensures LengthBelow(rs, x) == 0.0
  {
    if rs != [] {
      LengthBelowNothing(rs[1..], x);
    }
  }

  /** On sorted, separated ranges, the loop stops at the x that has exactly rv of the ranges'
      length at or below it. */
  lemma {:induction false} WalkMeasure(rs: seq<Range>, rv: real)
    requires WellFormed(rs) && LoSorted(rs) && Separated(rs)
    requires rs != [] && 0.0 <= rv <= TotalLength(rs)
    ensures Walk(rs, rv).Some? && LengthBelow(rs, Walk(rs, rv).value) == rv
  {
    WalkInside(rs, rv);
    var x := Walk(rs, rv).value;
    var rest := rv - (rs[0].hi - rs[0].lo);
    var tail := rs[1..];
    if rest <= 0.0 {
      forall i | 0 <= i < |tail| ensures x <= tail[i].lo {
        assert tail[i] == rs[i + 1];
      }
      LengthBelowNothing(tail, x);
      assert Clip(rs[0], x) == rv;
    } else {
      WalkMeasure(tail, rest);
      WalkInside(tail, rest);
      ContainsIff(tail, x);
      var j :| 0 <= j < |tail| && In(tail[j], x);
      assert tail[j] == rs[j + 1];
      assert rs[0].hi < rs[1].lo <= rs[j + 1].lo;
      assert Clip(rs[0], x) == rs[0].hi - rs[0].lo;
    }
  }

  lemma ShareBounds(u: real, total: real)
    requires 0.0 <= u < 1.0 && total >= 0.0
    ensures 0.0 <= Share(u, total) <= total
  {
    assert Share(u, total) == u * total;
    MulNonNegative(1.0 - u, total);
    MulNonNegative(u, total);
    assert total - u * total == (1.0 - u) * total;
  }

  lemma MulNonNegative(a: real, b: real)
    requires a >= 0.0 && b >= 0.0
    ensures a * b >= 0.0
  {
  }

  /** `random()` answers None exactly on an empty FloatRange; otherwise, for ranges with
      lo <= hi, a real the FloatRange holds, and, on normalized ranges, the x at which the
      share u of the total length lies at or below x (so a uniform u yields a uniform x). */
  lemma SampleSpec(rs: seq<Range>, u: real)
    requires 0.0 <= u < 1.0
    ensures Sample(rs, u).None? <==> rs == []
    ensures WellFormed(rs) && rs != [] ==> Contains(rs, Sample(rs, u).value)
    ensures WellFormed(rs) && LoSorted(rs) && Separated(rs) && rs != [] ==>
              LengthBelow(rs, Sample(rs, u).value) == Share(u, TotalLength(rs))
  {
    if WellFormed(rs) && rs != [] {
      var total := TotalLength(rs);
      TotalLengthNonNegative(rs);
      ShareBounds(u, total);
      WalkInside(rs, Share(u, total));
      if LoSorted(rs) && Separated(rs) {
        WalkMeasure(rs, Share(u, total));
      }
    }
  }

  /** Sampling [0, 1] and [2, 3] (total length 2) with u = 0.75 lands at 2.5. */
  lemma SampleExample()
    ensures Sample([Range(0.0, 1.0), Range(2.0, 3.0)], 0.75) == Some(2.5)
  {
    var rs := [Range(0.0, 1.0), Range(2.0, 3.0)];
    assert rs[1..] == [Range(2.0, 3.0)];
    assert rs[1..][1..] == [];
    assert TotalLength(rs) == 2.0;
  }
}
