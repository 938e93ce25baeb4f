/** The dotted-version helpers `version_to_list` and `check_versions`
    (common/tester.js:375-386, wasm/tester.js:282-295). */
module Versions {
  import opened JsText

  /** `version_to_list(v)`: `v.split(".").map((x) => parseInt(x, 10))`. */
  function VersionToList(v: string): (r: seq<JsNumber>)
    ensures |r| == Count(v, '.') + 1
    ensures forall i :: 0 <= i < |r| ==> r[i] == ParseInt(Split(v, '.')[i])
  {
    var parts := Split(v, '.');
    seq(|parts|, i requires 0 <= i < |parts| => ParseInt(parts[i]))
  }

  /** The dotted text of a version made of natural numbers. */
  function VersionText(ns: seq<nat>): string
  {
    Join(seq(|ns|, i requires 0 <= i < |ns| => NatToString(ns[i])), '.')
  }

  /** Parsing reads back every component of a written version. */
  lemma VersionRoundTrip(ns: seq<nat>)
    requires |ns| >= 1
    ensures VersionToList(VersionText(ns)) == seq(|ns|, i requires 0 <= i < |ns| => Int(ns[i]))
  {
    var parts := seq(|ns|, i requires 0 <= i < |ns| => NatToString(ns[i]));
    forall i | 0 <= i < |parts| ensures '.' !in parts[i] {
      var s := parts[i];
      assert forall m :: 0 <= m < |s| ==> IsDigit(s[m]);
    }
    SplitJoin(parts, '.');
    forall i | 0 <= i < |ns| ensures ParseInt(parts[i]) == Int(ns[i]) {
      ParseIntOfNatToString(ns[i]);
    }
  }

  /** `v[i]` in a numeric comparison: a missing entry is `undefined`, which compares as NaN. */
  function At(v: seq<JsNumber>, i: nat): JsNumber
  {
    if i < |v| then v[i] else NaN
  }

  /** `a > b` on numbers: false whenever either side is NaN. */
  predicate Greater(a: JsNumber, b: JsNumber)
  {
    a.Int? && b.Int? && a.value > b.value
  }

  /** Position `i` of `v2` orders the two versions one way or the other. */
  predicate Decided(v1: seq<JsNumber>, v2: seq<JsNumber>, i: nat)
    requires i < |v2|
  {
    Greater(At(v1, i), v2[i]) || Greater(v2[i], At(v1, i))
  }

  /** `v1` is newer than or equal to `v2`: at the first position below `|v2|` where the
      entries are ordered, `v1`'s is greater; when there is no such position, it holds. */
  predicate NewerOrEqual(v1: seq<JsNumber>, v2: seq<JsNumber>)
  {
    forall i :: 0 <= i < |v2| && Decided(v1, v2, i) && (forall j :: 0 <= j < i ==> !Decided(v1, v2, j))
      ==> Greater(At(v1, i), v2[i])
  }

  /** `check_versions(v1, v2)`: the loop over `v2`'s positions with its two early returns. */
  method CheckVersions(v1: seq<JsNumber>, v2: seq<JsNumber>) returns (r: bool)
    ensures r == NewerOrEqual(v1, v2)
  {
    var i := 0;
    while i < |v2|
      invariant 0 <= i <= |v2|
      invariant forall j :: 0 <= j < i ==> !Decided(v1, v2, j)
    {
      if Greater(At(v1, i), v2[i]) {
        assert Decided(v1, v2, i);
        forall m | 0 <= m < |v2| && Decided(v1, v2, m) && (forall j :: 0 <= j < m ==> !Decided(v1, v2, j))
          ensures Greater(At(v1, m), v2[m])
        {
          assert m <= i;
        }
        return true;
      }
      if Greater(v2[i], At(v1, i)) {
        return false;
      }
      i := i + 1;
    }
    return true;
  }

  /** Every version is newer than or equal to itself. */
  lemma NewerOrEqualReflexive(v: seq<JsNumber>)
    ensures NewerOrEqual(v, v)
  {
    forall i | 0 <= i < |v| ensures !Decided(v, v, i) {
      assert At(v, i) == v[i];
    }
  }

  /** Of any two versions, one is newer than or equal to the other. A position past the end
      of either compares against NaN and is decided in neither direction, so the first
      decided position is the same both ways round. */
  lemma NewerOrEqualTotal(v1: seq<JsNumber>, v2: seq<JsNumber>)
    ensures NewerOrEqual(v1, v2) || NewerOrEqual(v2, v1)
  {
    if !NewerOrEqual(v1, v2) {
      var i :| 0 <= i < |v2| && Decided(v1, v2, i) && (forall j :: 0 <= j < i ==> !Decided(v1, v2, j))
               && !Greater(At(v1, i), v2[i]);
      assert i < |v1| && At(v1, i) == v1[i] && At(v2, i) == v2[i];
      forall k | 0 <= k < |v1| && Decided(v2, v1, k) && (forall j :: 0 <= j < k ==> !Decided(v2, v1, j))
        ensures Greater(At(v2, k), v1[k])
      {
        assert k < |v2| && At(v1, k) == v1[k] && At(v2, k) == v2[k];
        if k < i {
          assert Decided(v1, v2, k);
        } else if i < k {
          assert Decided(v2, v1, i);
        }
      }
    }
  }

  /** For versions of integers of equal length, each newer than or equal to the other
      means they are the same version. */
  lemma NewerOrEqualAntisymmetric(v1: seq<JsNumber>, v2: seq<JsNumber>)
    requires |v1| == |v2|
    requires forall i :: 0 <= i < |v1| ==> v1[i].Int? && v2[i].Int?
    requires NewerOrEqual(v1, v2) && NewerOrEqual(v2, v1)
    ensures v1 == v2
  {
    if v1 != v2 {
      var i :| 0 <= i < |v1| && v1[i] != v2[i];
      var first := FirstDifference(v1, v2, i);
      assert At(v1, first) == v1[first] && At(v2, first) == v2[first];
      forall j | 0 <= j < first ensures !Decided(v1, v2, j) && !Decided(v2, v1, j) {
        assert At(v1, j) == v1[j] && At(v2, j) == v2[j];
      }
      assert Decided(v1, v2, first);
    }
  }

  /** The first position at which two sequences differ, given one at which they do. */
  lemma {:induction false} FirstDifference(v1: seq<JsNumber>, v2: seq<JsNumber>, i: nat) returns (first: nat)
    requires |v1| == |v2| && i < |v1| && v1[i] != v2[i]
    ensures first <= i && v1[first] != v2[first]
    ensures forall j :: 0 <= j < first ==> v1[j] == v2[j]
  {
    if forall j :: 0 <= j < i ==> v1[j] == v2[j] {
      return i;
    }
    var j :| 0 <= j < i && v1[j] != v2[j];
    first := FirstDifference(v1, v2, j);
  }

  /** A version with fewer components counts as newer than or equal to any extension of
      it: the missing positions compare as NaN and are skipped. */
  lemma ShorterPrefixCountsAsNewer(v1: seq<JsNumber>, v2: seq<JsNumber>)
    requires |v1| <= |v2| && v1 == v2[..|v1|]
    ensures NewerOrEqual(v1, v2)
  {
    forall i | 0 <= i < |v2| ensures !Decided(v1, v2, i) {
      if i < |v1| {
        assert At(v1, i) == v2[i];
      }
    }
  }

  /** Two parsed versions: "2.0" is taken as newer than or equal to "2.0.1". */
  lemma TwoPointZeroPassesForTwoPointZeroPointOne()
    ensures NewerOrEqual([Int(2), Int(0)], [Int(2), Int(0), Int(1)])
  {
    ShorterPrefixCountsAsNewer([Int(2), Int(0)], [Int(2), Int(0), Int(1)]);
  }
}
