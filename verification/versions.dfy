/** Version comparison for APK resources (wa/framework/resource.py).
    Versions are compared as tuples of integers, in Python's tuple order. */
module Versions {
  import opened Wrappers
  import Text
  import opened Values

  // ---------------------------------------------------------------------
  // Version tuples

  /** The longest prefix of `s` made of decimal digits. */
  function LeadingDigits(s: string): (r: string)
    ensures r <= s && Text.AllDigits(r)
  {
    if |s| > 0 && Text.IsDigit(s[0]) then [s[0]] + LeadingDigits(s[1..]) else ""
  }

  /** Numeric value of one version segment ("12rc1" reads as 12). */
  function SegmentValue(segment: string): nat {
    Text.DigitsValue(LeadingDigits(segment))
  }

  /** Stand-in for `version_tuple`, whose definition is not part of this
      model: one integer per dot-separated segment; `None` is the empty
      tuple. */
  function VersionTuple(v: Option<string>): (t: seq<int>)
    ensures v.Some? ==> |t| == |Text.Split(v.value, '.')|
    ensures v.None? ==> t == []
  {
    match v
    case None => []
    case Some(s) =>
      var parts := Text.Split(s, '.');
      seq(|parts|, i requires 0 <= i < |parts| => SegmentValue(parts[i]))
  }

  // ---------------------------------------------------------------------
  // Python's ordering on tuples

  /** Python `a < b` on tuples: the first differing element decides, and a
      proper prefix is smaller. */
  predicate TupleLess(a: seq<int>, b: seq<int>) {
    if |a| == 0 then |b| > 0
    else if |b| == 0 then false
    else if a[0] != b[0] then a[0] < b[0]
    else TupleLess(a[1..], b[1..])
  }

  /** Python `a <= b` on tuples. */
  predicate TupleLeq(a: seq<int>, b: seq<int>) {
    TupleLess(a, b) || a == b
  }

  /** Independent description of the same order: `a` is a proper prefix of
      `b`, or the two agree up to a position where `a` is smaller. */
  ghost predicate LexicographicallyBelow(a: seq<int>, b: seq<int>) {
    || (|a| < |b| && a == b[..|a|])
    || exists k :: 0 <= k < |a| && k < |b| && a[..k] == b[..k] && a[k] < b[k]
  }

  lemma {:induction false} TupleLessMeansBelow(a: seq<int>, b: seq<int>)
    ensures TupleLess(a, b) <==> LexicographicallyBelow(a, b)
  {
    if |a| == 0 {
    } else if |b| == 0 {
    } else if a[0] != b[0] {
      forall k | 0 < k <= |a| && k <= |b|
        ensures a[..k] != b[..k]
      {
        assert a[..k][0] == a[0] && b[..k][0] == b[0];
      }
      if a[0] < b[0] {
        assert a[..0] == b[..0];
      }
    } else {
      TupleLessMeansBelow(a[1..], b[1..]);
      if LexicographicallyBelow(a[1..], b[1..]) {
        if |a[1..]| < |b[1..]| && a[1..] == b[1..][..|a[1..]|] {
          assert a == [a[0]] + a[1..];
          assert b[..|a|] == [b[0]] + b[1..][..|a[1..]|];
        } else {
          var k :| 0 <= k < |a[1..]| && k < |b[1..]| && a[1..][..k] == b[1..][..k] && a[1..][k] < b[1..][k];
          assert a[..k + 1] == [a[0]] + a[1..][..k];
          assert b[..k + 1] == [b[0]] + b[1..][..k];
        }
      }
      if LexicographicallyBelow(a, b) {
        if |a| < |b| && a == b[..|a|] {
          assert a[1..] == b[1..][..|a[1..]|];
        } else {
          var k :| 0 <= k < |a| && k < |b| && a[..k] == b[..k] && a[k] < b[k];
          assert k != 0;
          assert a[1..][..k - 1] == a[..k][1..];
          assert b[1..][..k - 1] == b[..k][1..];
          assert a[1..][k - 1] < b[1..][k - 1];
        }
      }
    }
  }

  lemma {:induction false} TupleLessIrreflexive(a: seq<int>)
    ensures !TupleLess(a, a)
  {
    if |a| > 0 {
      TupleLessIrreflexive(a[1..]);
    }
  }

  lemma {:induction false} TupleLessTransitive(a: seq<int>, b: seq<int>, c: seq<int>)
    requires TupleLess(a, b) && TupleLess(b, c)
    ensures TupleLess(a, c)
  {
    if |a| > 0 && |b| > 0 && |c| > 0 && a[0] == b[0] && b[0] == c[0] {
      TupleLessTransitive(a[1..], b[1..], c[1..]);
    }
  }

  lemma {:induction false} TupleLessTrichotomy(a: seq<int>, b: seq<int>)
    ensures TupleLess(a, b) || a == b || TupleLess(b, a)
    ensures !(TupleLess(a, b) && TupleLess(b, a))
  {
    if |a| > 0 && |b| > 0 && a[0] == b[0] {
      TupleLessTrichotomy(a[1..], b[1..]);
      if a[1..] == b[1..] {
        assert a == [a[0]] + a[1..] && b == [b[0]] + b[1..];
      }
    }
  }

  /** Python `not (a > b)` on tuples is `a <= b`. */
  lemma NotGreaterIsLeq(a: seq<int>, b: seq<int>)
    ensures !TupleLess(b, a) <==> TupleLeq(a, b)
  {
    TupleLessTrichotomy(a, b);
    if a == b {
      TupleLessIrreflexive(a);
    }
  }

  lemma TupleLeqTransitive(a: seq<int>, b: seq<int>, c: seq<int>)
    requires TupleLeq(a, b) && TupleLeq(b, c)
    ensures TupleLeq(a, c)
  {
    if a != b && b != c {
      TupleLessTransitive(a, b, c);
    }
  }

  // ---------------------------------------------------------------------
  // Matching (resource.py: loose_version_matching, range_version_matching)

  /** The loop of `loose_version_matching`: segments `i..` of the requested
      tuple equal those of the APK's. */
  predicate SegmentsEqualFrom(config: seq<int>, apk: seq<int>, i: nat)
    requires |config| <= |apk|
    decreases |config| - i
  {
    i >= |config| || (config[i] == apk[i] && SegmentsEqualFrom(config, apk, i + 1))
  }

  lemma {:induction false} SegmentsEqualFromMeansPrefix(config: seq<int>, apk: seq<int>, i: nat)
    requires |config| <= |apk| && i <= |config|
    requires config[..i] == apk[..i]
    ensures SegmentsEqualFrom(config, apk, i) <==> config <= apk
    decreases |config| - i
  {
    if i < |config| {
      if config[i] == apk[i] {
        assert config[..i + 1] == config[..i] + [config[i]];
        assert apk[..i + 1] == apk[..i] + [apk[i]];
        SegmentsEqualFromMeansPrefix(config, apk, i + 1);
      } else {
        assert config[i] != apk[..|config|][i];
      }
    } else {
      assert config == config[..i];
    }
  }

  /** `loose_version_matching(config, apk)`: the requested version is a
      prefix of the APK's version, segment by segment. */
  function LooseVersionMatching(config: string, apk: Option<string>): (r: bool)
    ensures r <==> VersionTuple(Some(config)) <= VersionTuple(apk)
  {
    var c := VersionTuple(Some(config));
    var a := VersionTuple(apk);
    if |a| < |c| then false
    else
      SegmentsEqualFromMeansPrefix(c, a, 0);
      SegmentsEqualFrom(c, a, 0)
  }

  /** `range_version_matching(apk, min, max)`: both bounds inclusive, an
      absent or empty bound imposes nothing, and a missing or empty APK
      version never matches. */
  function RangeVersionMatching(apk: Option<string>, min: Option<string>, max: Option<string>): (r: bool)
    ensures r <==>
      && Given(apk)
      && (Given(max) ==> TupleLeq(VersionTuple(apk), VersionTuple(max)))
      && (Given(min) ==> TupleLeq(VersionTuple(min), VersionTuple(apk)))
  {
    if !Given(apk) then false
    else
      var t := VersionTuple(apk);
      if Given(max) && TupleLess(VersionTuple(max), t) then
        TupleLessTrichotomy(t, VersionTuple(max));
        false
      else if Given(min) && TupleLess(t, VersionTuple(min)) then
        TupleLessTrichotomy(t, VersionTuple(min));
        false
      else
        NotGreaterIsLeq(t, VersionTuple(max));
        NotGreaterIsLeq(VersionTuple(min), t);
        true
  }

  /** A version range is convex: a version lying between two accepted
      versions is accepted too. */
  lemma RangeIsConvex(min: Option<string>, max: Option<string>, lo: string, mid: string, hi: string)
    requires RangeVersionMatching(Some(lo), min, max)
    requires RangeVersionMatching(Some(hi), min, max)
    requires |mid| > 0
    requires TupleLeq(VersionTuple(Some(lo)), VersionTuple(Some(mid)))
    requires TupleLeq(VersionTuple(Some(mid)), VersionTuple(Some(hi)))
    ensures RangeVersionMatching(Some(mid), min, max)
  {
    if Given(max) {
      TupleLeqTransitive(VersionTuple(Some(mid)), VersionTuple(Some(hi)), VersionTuple(max));
    }
    if Given(min) {
      TupleLeqTransitive(VersionTuple(min), VersionTuple(Some(lo)), VersionTuple(Some(mid)));
    }
  }

  /** A range whose two bounds are the same version accepts exactly the
      versions with an equal tuple. */
  lemma PointRange(v: string, apk: string)
    requires |v| > 0 && |apk| > 0
    ensures RangeVersionMatching(Some(apk), Some(v), Some(v))
        <==> VersionTuple(Some(apk)) == VersionTuple(Some(v))
  {
    TupleLessTrichotomy(VersionTuple(Some(apk)), VersionTuple(Some(v)));
  }
}
